// What a whole client byte stream means to the server, read in one piece: a
// recursive descent over the stream with no buffer, no state and no waiting. The
// main result is that the incremental session produces exactly this trace however
// the stream is cut up and however pulls are interleaved with arrivals.
module ServerSpec {
  import opened Wire
  import opened Codec
  import opened CodecLaws
  import opened ServerModel

  // The decisions hooks and driver record when asked. They may depend on the
  // session's public flags as well as on the event.
  datatype Hooks = Hooks(
    authorize: (Flags, Creds) -> seq<Decision>,
    connect: (Flags, byte, Address) -> seq<Decision>)

  // ---- the batch specification -----------------------------------------------

  // The events a stream leads to, and the bytes of it that are never consumed.
  datatype Story = Story(events: seq<Event>, rest: bytes)

  function After(es: seq<Event>, story: Story): Story {
    Story(es + story.events, story.rest)
  }

  function GreetingSpec(net: Inet, requireAuth: bool, f: Flags, b: bytes, h: Hooks): Story {
    if b != [] && b[0] != VER then Story([Close(BadVersion)], b)
    else
      match ParseGreeting(b)
      case None => Story([], b)
      case Some(methods) =>
        var rest := b[2 + |methods|..];
        if !requireAuth then After([Send([VER, NO_AUTH])], RequestSpec(net, f, rest, h))
        else if USERPASS in methods then After([Send([VER, USERPASS])], AuthSpec(net, f, rest, h))
        else Story([Send([VER, NO_ACCEPTABLE]), Close(NoAcceptableMethod)], rest)
  }

  function AuthSpec(net: Inet, f: Flags, b: bytes, h: Hooks): Story {
    match ParseUserpass(b)
    case None => Story(if |b| > 513 then [Close(AuthTooLarge)] else [], b)
    case Some(creds) =>
      var g := f.(rejected := false);
      After([Authorize(creds)],
            AuthVerdict(net, DecideAll(g, h.authorize(g, creds)), b[UserpassSize(b).value..], h))
  }

  function AuthVerdict(net: Inet, f: Flags, b: bytes, h: Hooks): Story {
    if f.rejected then Story([Send([AUTH_VER, 1]), Close(AuthRejected)], b)
    else After([Send([AUTH_VER, 0])], RequestSpec(net, f, b, h))
  }

  function RequestSpec(net: Inet, f: Flags, b: bytes, h: Hooks): Story {
    if |b| < 4 then Story([], b)
    else if !KnownAtyp(b[3]) then
      Story(if |b| < 5 then [] else Answer(net, ATYP_NOT_SUPPORTED, ZERO_ADDRESS, Close(UnsupportedAtyp)), b)
    else if MessageSize(b).None? || |b| < MessageSize(b).value then Story([], b)
    else
      var rest := b[MessageSize(b).value..];
      match ParseMessage(net, b)
      case None => Story(Answer(net, GENERAL_FAILURE, ZERO_ADDRESS, Close(MalformedRequest)), b)
      case Some((cmd, dst)) =>
        if cmd != CONNECT then
          Story(Answer(net, CMD_NOT_SUPPORTED, ZERO_ADDRESS, Close(CommandNotSupported)), rest)
        else
          var g := ForConnect(f, dst);
          Story([Connect(cmd, dst)] + ConnectVerdict(net, DecideAll(g, h.connect(g, cmd, dst))), rest)
  }

  // What the flags say once the driver has had its turn; empty while undecided.
  function ConnectVerdict(net: Inet, f: Flags): seq<Event> {
    if f.raw then [Relay(if f.target.Some? then f.target.value else ZERO_ADDRESS)]
    else if f.rejected then Answer(net, f.rep, ZERO_ADDRESS, Close(RequestRejected))
    else if f.failed then Answer(net, f.rep, ZERO_ADDRESS, Close(UpstreamFailed))
    else if f.bound.Some? then
      Answer(net, SUCCEEDED, f.bound.value, Relay(if f.target.Some? then f.target.value else f.bound.value))
    else []
  }

  // The whole trace, NeedData erased, up to the first Relay or Close.
  function Spec(net: Inet, requireAuth: bool, b: bytes, h: Hooks): Story {
    GreetingSpec(net, requireAuth, INITIAL_FLAGS, b, h)
  }

  // A batch trace has at most six events, and the sixth ends it.
  lemma SpecLength(net: Inet, requireAuth: bool, b: bytes, h: Hooks)
    ensures var es := Spec(net, requireAuth, b, h).events;
            |es| <= 6 && (|es| == 6 ==> Finished(es))
  {
    hide Lawful, ParseMessage, MessageSize, ParseUserpass, UserpassSize, ParseGreeting, DecideAll, Message;
  }

  // Every answer is short.
  lemma NextBrief(net: Inet, s: Srv)
    requires WellFormed(s)
    ensures Next(net, s).1.Send? ==> |Next(net, s).1.data| <= 262
  {
    hide Lawful, Message, MessageSize, ParseMessage, ParseGreeting, ParseUserpass, UserpassSize;
    forall rep, bound {
      MessageBrief(net, rep, bound);
    }
  }

  lemma MessageBrief(net: Inet, tag: int, a: Address)
    ensures Message(net, tag, a).Some? ==> |Message(net, tag, a).value| <= 262
  {
    hide Lawful, Message;
    if Message(net, tag, a).Some? {
      MessageRoundTrip(net, tag, a, []);
      assert Message(net, tag, a).value + [] == Message(net, tag, a).value;
    }
  }

  // ---- hooked runs -----------------------------------------------------------

  // A session between its hooks, with the events handed out so far.
  datatype Config = Config(s: Srv, trace: seq<Event>)

  datatype Op = Arrive(chunk: bytes) | Turn

  predicate Finished(trace: seq<Event>) {
    trace != [] && Terminal(trace[|trace| - 1])
  }

  // The hook runs between an Authorize or Connect event and the next pull.
  function Respond(h: Hooks, s: Srv, e: Event): Srv {
    match e
    case Authorize(creds) => s.(flags := DecideAll(s.flags, h.authorize(s.flags, creds)))
    case Connect(cmd, dst) => s.(flags := DecideAll(s.flags, h.connect(s.flags, cmd, dst)))
    case _ => s
  }

  // One pull and, if the event asks for it, the hook's answer. A driver that has
  // been given a terminal event does not pull again.
  function PullOnce(net: Inet, h: Hooks, k: Config): Config {
    if Finished(k.trace) then k
    else
      var (s, e) := Next(net, k.s);
      if Stutters(e) then Config(s, k.trace) else Config(Respond(h, s, e), k.trace + [e])
  }

  function Perform(net: Inet, h: Hooks, k: Config, op: Op): Config {
    match op
    case Arrive(chunk) => k.(s := k.s.(buf := k.s.buf + chunk))
    case Turn => PullOnce(net, h, k)
  }

  function Hooked(net: Inet, requireAuth: bool, h: Hooks, ops: seq<Op>): Config {
    if ops == [] then Config(Init(requireAuth), [])
    else Perform(net, h, Hooked(net, requireAuth, h, ops[..|ops| - 1]), ops[|ops| - 1])
  }

  function Arrived(ops: seq<Op>): bytes {
    if ops == [] then []
    else
      Arrived(ops[..|ops| - 1]) +
      (match ops[|ops| - 1] case Arrive(chunk) => chunk case Turn => [])
  }

  lemma HookedSnoc(net: Inet, requireAuth: bool, h: Hooks, ops: seq<Op>, op: Op)
    ensures Hooked(net, requireAuth, h, ops + [op]) == Perform(net, h, Hooked(net, requireAuth, h, ops), op)
  {
    hide Perform;
    assert (ops + [op])[..|ops|] == ops;
  }

  lemma ArrivedSnoc(ops: seq<Op>, op: Op)
    ensures Arrived(ops + [op]) == Arrived(ops) + (match op case Arrive(c) => c case Turn => [])
  {
    assert (ops + [op])[..|ops|] == ops;
  }

  // Another pull would add nothing: the driver has stopped, or the session waits.
  predicate Settled(net: Inet, k: Config) {
    Finished(k.trace) || Stutters(Next(net, k.s).1)
  }

  // ---- refinement ------------------------------------------------------------

  // The story still to come from `s` when `more` follows what it has buffered.
  function Remaining(net: Inet, s: Srv, more: bytes, h: Hooks): Story {
    match s.phase
    case Greeting => GreetingSpec(net, s.requireAuth, s.flags, s.buf + more, h)
    case Auth => AuthSpec(net, s.flags, s.buf + more, h)
    case AuthWait => AuthVerdict(net, s.flags, s.buf + more, h)
    case Request => RequestSpec(net, s.flags, s.buf + more, h)
    case ConnectWait => Story(ConnectVerdict(net, s.flags), s.buf + more)
    case Relaying => Story(s.out, s.buf + more)
    case Closed => Story(s.out, s.buf + more)
  }

  // The machine and its trace agree on whether the handshake is over.
  predicate Sound(k: Config) {
    && WellFormed(k.s)
    && (Finished(k.trace) <==> Over(k.s))
  }

  // What one pull does to the events still to come.
  ghost predicate PullsRemaining(net: Inet, h: Hooks, s: Srv, more: bytes) {
    var (t, e) := Next(net, s);
    if Stutters(e) then
      t == s && (more == [] ==> Remaining(net, s, more, h) == Story([], s.buf))
    else
      var u := Respond(h, t, e);
      && Remaining(net, s, more, h) == After([e], Remaining(net, u, more, h))
      && WellFormed(u)
      && u.requireAuth == s.requireAuth
      && (Terminal(e) <==> Over(u))
  }

  // The handshake has ended and nothing is queued.
  predicate Over(s: Srv) {
    (s.phase.Relaying? || s.phase.Closed?) && s.out == []
  }

  lemma PullGreeting(net: Inet, h: Hooks, s: Srv, more: bytes)
    requires s.phase == Greeting && s.out == []
    ensures PullsRemaining(net, h, s, more)
  {
    hide StepAuth, StepAuthWait, StepRequest, StepConnectWait;
    hide RequestSpec, AuthSpec, AuthVerdict, ParseGreeting, Lawful;
    var b := s.buf;
    if b != [] && b[0] != VER {
      assert (b + more)[0] == b[0];
    } else if ParseGreeting(b).Some? {
      GreetingExtent(b, more, 0);
      TakeThenMore(b, more, 2 + b[1] as int);
    } else {
      assert b + [] == b;
    }
  }

  lemma PullAuth(net: Inet, h: Hooks, s: Srv, more: bytes)
    requires s.phase == Auth && s.out == []
    ensures PullsRemaining(net, h, s, more)
  {
    hide StepGreeting, StepAuthWait, StepRequest, StepConnectWait;
    hide GreetingSpec, AuthVerdict, RequestSpec, Lawful;
    var b := s.buf;
    if UserpassSize(b).Some? {
      UserpassExtent(b, more, 0);
      TakeThenMore(b, more, UserpassSize(b).value);
    } else if |b| > 513 {
      UserpassStuck(b, more);
    } else {
      assert b + [] == b;
    }
  }

  lemma PullAuthWait(net: Inet, h: Hooks, s: Srv, more: bytes)
    requires s.phase == AuthWait && s.out == []
    ensures PullsRemaining(net, h, s, more)
  {
    hide StepGreeting, StepAuth, StepRequest, StepConnectWait, GreetingSpec, AuthSpec, RequestSpec, Lawful;
  }

  lemma PullRequest(net: Inet, h: Hooks, s: Srv, more: bytes)
    requires s.phase == Request && s.out == []
    ensures PullsRemaining(net, h, s, more)
  {
    hide Lawful, Message, ConnectVerdict, MessageSize, ParseMessage;
    hide StepGreeting, StepAuth, StepAuthWait, StepConnectWait, GreetingSpec, AuthSpec, AuthVerdict;
    var b := s.buf;
    var all := b + more;
    assert b + [] == b;
    SizeKnown(b);
    assert |b| >= 4 ==> all[3] == b[3];
    if MessageSize(b).Some? {
      var n := MessageSize(b).value;
      MessageSizeStable(b, more);
      if n <= |b| {
        ParseMessageExtent(net, b);
        ParseMessageExtent(net, all);
        TakeThenMore(b, more, n);
      }
    }
  }

  lemma SizeKnown(b: bytes)
    ensures MessageSize(b).Some? ==> |b| >= 4 && KnownAtyp(b[3])
    ensures |b| >= 5 && KnownAtyp(b[3]) ==> MessageSize(b).Some?
  {
  }

  lemma PullConnectWait(net: Inet, h: Hooks, s: Srv, more: bytes)
    requires s.phase == ConnectWait && s.out == []
    ensures PullsRemaining(net, h, s, more)
  {
    hide Lawful, Message, StepGreeting, StepAuth, StepAuthWait, StepRequest;
    hide GreetingSpec, AuthSpec, AuthVerdict, RequestSpec, Answer;
    var es := ConnectVerdict(net, s.flags);
    if es == [] {
    } else {
      assert es == [es[0]] + es[1..];
      assert Respond(h, Next(net, s).0, es[0]) == Next(net, s).0;
    }
  }

  lemma PullStep(net: Inet, h: Hooks, s: Srv, more: bytes)
    requires WellFormed(s) && !Over(s)
    ensures PullsRemaining(net, h, s, more)
  {
    if s.out != [] {
      hide Step;
      assert s.out == [s.out[0]] + s.out[1..];
    } else {
      hide PullsRemaining;
      match s.phase
      case Greeting => PullGreeting(net, h, s, more);
      case Auth => PullAuth(net, h, s, more);
      case AuthWait => PullAuthWait(net, h, s, more);
      case Request => PullRequest(net, h, s, more);
      case ConnectWait => PullConnectWait(net, h, s, more);
    }
  }

  lemma TurnStep(net: Inet, h: Hooks, k: Config, more: bytes, whole: Story)
    requires Sound(k) && After(k.trace, Remaining(net, k.s, more, h)) == whole
    ensures var k' := PullOnce(net, h, k);
            && Sound(k') && k'.s.requireAuth == k.s.requireAuth
            && After(k'.trace, Remaining(net, k'.s, more, h)) == whole
  {
    hide Next, Remaining;
    if !Finished(k.trace) {
      PullStep(net, h, k.s, more);
      var (t, e) := Next(net, k.s);
      var rest := Remaining(net, Respond(h, t, e), more, h).events;
      assert k.trace + ([e] + rest) == k.trace + [e] + rest;
    }
  }

  lemma ArriveStep(net: Inet, h: Hooks, s: Srv, chunk: bytes, more: bytes)
    ensures Remaining(net, s.(buf := s.buf + chunk), more, h) == Remaining(net, s, chunk + more, h)
  {
    hide GreetingSpec, AuthSpec, AuthVerdict, RequestSpec, ConnectVerdict;
    assert s.buf + chunk + more == s.buf + (chunk + more);
  }

  // The heart of the matter: what has been handed out, followed by what is still to
  // come, is always the batch story of everything arrived and yet to arrive.
  lemma {:induction false} TraceInvariant(net: Inet, requireAuth: bool, h: Hooks, ops: seq<Op>, more: bytes)
    ensures var k := Hooked(net, requireAuth, h, ops);
            && Sound(k) && k.s.requireAuth == requireAuth
            && After(k.trace, Remaining(net, k.s, more, h)) == Spec(net, requireAuth, Arrived(ops) + more, h)
  {
    hide GreetingSpec, AuthSpec, AuthVerdict, RequestSpec, ConnectVerdict, PullOnce;
    if ops == [] {
      assert [] + more == more;
    } else {
      hide Remaining, Spec, Sound;
      var init, op := ops[..|ops| - 1], ops[|ops| - 1];
      var k := Hooked(net, requireAuth, h, init);
      match op
      case Arrive(chunk) =>
        TraceInvariant(net, requireAuth, h, init, chunk + more);
        ArriveStep(net, h, k.s, chunk, more);
        ArriveSound(k, chunk);
        assert Arrived(init) + chunk + more == Arrived(init) + (chunk + more);
      case Turn =>
        TraceInvariant(net, requireAuth, h, init, more);
        assert Arrived(init) + [] == Arrived(init);
        TurnStep(net, h, k, more, Spec(net, requireAuth, Arrived(init) + more, h));
    }
  }

  lemma ArriveSound(k: Config, chunk: bytes)
    requires Sound(k)
    ensures Sound(k.(s := k.s.(buf := k.s.buf + chunk)))
  {
  }

  // ---- main theorems ---------------------------------------------------------

  // However the stream is cut and interleaved with pulls, the trace is a prefix of
  // the batch trace of any continuation. Once nothing more can be pulled it is the
  // batch trace of what has arrived, and the buffer holds exactly the bytes the
  // batch reading never consumes.
  lemma Refinement(net: Inet, requireAuth: bool, h: Hooks, ops: seq<Op>, more: bytes)
    ensures var k := Hooked(net, requireAuth, h, ops);
            && k.trace <= Spec(net, requireAuth, Arrived(ops) + more, h).events
            && (Settled(net, k) ==> Spec(net, requireAuth, Arrived(ops), h) == Story(k.trace, k.s.buf))
  {
    hide Spec, Remaining, Hooked, Next;
    var k := Hooked(net, requireAuth, h, ops);
    TraceInvariant(net, requireAuth, h, ops, more);
    if Settled(net, k) {
      TraceInvariant(net, requireAuth, h, ops, []);
      assert Arrived(ops) + [] == Arrived(ops);
      NothingLeft(net, h, k);
      assert k.trace + [] == k.trace;
    }
  }

  lemma NothingLeft(net: Inet, h: Hooks, k: Config)
    requires Sound(k) && Settled(net, k)
    ensures Remaining(net, k.s, [], h) == Story([], k.s.buf)
  {
    hide Next, GreetingSpec, AuthSpec, AuthVerdict, RequestSpec, ConnectVerdict;
    assert k.s.buf + [] == k.s.buf;
    if !Finished(k.trace) {
      PullStep(net, h, k.s, []);
    }
  }

  // Once a terminal event is out, later bytes change nothing; they are surplus.
  lemma FinishedIsFinal(net: Inet, requireAuth: bool, h: Hooks, ops: seq<Op>, more: bytes)
    requires Finished(Hooked(net, requireAuth, h, ops).trace)
    ensures var k := Hooked(net, requireAuth, h, ops);
            Spec(net, requireAuth, Arrived(ops) + more, h) == Story(k.trace, k.s.buf + more)
  {
    hide Spec, Hooked, GreetingSpec, AuthSpec, AuthVerdict, RequestSpec, ConnectVerdict;
    TraceInvariant(net, requireAuth, h, ops, more);
    var k := Hooked(net, requireAuth, h, ops);
    assert k.trace + [] == k.trace;
  }

  // Two runs over the same bytes, cut and interleaved differently: at any moment one
  // trace extends the other, and once both have settled they have handed out the
  // same events and hold the same surplus bytes.
  lemma ChunkingIndependence(net: Inet, requireAuth: bool, h: Hooks, ops1: seq<Op>, ops2: seq<Op>)
    requires Arrived(ops1) == Arrived(ops2)
    ensures var k1, k2 := Hooked(net, requireAuth, h, ops1), Hooked(net, requireAuth, h, ops2);
            && (k1.trace <= k2.trace || k2.trace <= k1.trace)
            && (Settled(net, k1) && Settled(net, k2) ==> k1.trace == k2.trace && k1.s.buf == k2.s.buf)
  {
    hide Hooked, Spec, Settled;
    Refinement(net, requireAuth, h, ops1, []);
    Refinement(net, requireAuth, h, ops2, []);
    var k1, k2 := Hooked(net, requireAuth, h, ops1), Hooked(net, requireAuth, h, ops2);
    assert Arrived(ops1) + [] == Arrived(ops1);
    var all := Spec(net, requireAuth, Arrived(ops1), h).events;
    assert k1.trace == all[..|k1.trace|] && k2.trace == all[..|k2.trace|];
  }
}
