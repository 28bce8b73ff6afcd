// What a client is told by a server with these hooks and this dial, and what its relay
// is pointed at: a table read off the calls the hooks make, with the codes as numbers.
// Every entry speaks of a connection's thread, by what its account says.
module Outcomes {
  import opened Wire
  import opened Codec
  import opened CodecLaws
  import opened ServerModel
  import opened Decisions
  import opened Transcript
  import opened Schedules
  import opened Driver
  import S = ServerSpec
  import C = ClientModel
  import X = EndToEnd

  // ---- what the hooks are asked, and what they do ----------------------------

  function AuthorizeRun(v: Server, creds: Option<Creds>): HookRun {
    if creds.Some? && v.authorize.Some? then v.authorize.value(INITIAL_FLAGS, creds.value) else HookRun([], false)
  }

  // The authorize hook, if there is one, lets the client in.
  predicate Admits(v: Server, creds: Option<Creds>) {
    var run := AuthorizeRun(v, creds);
    !run.raises && !Rejects(run.decisions, false)
  }

  // The session as the connect hook finds it.
  function Shown(v: Server, creds: Option<Creds>, dst: Address): Flags {
    var ds := AuthorizeRun(v, creds).decisions;
    Flags(Some(dst), false, Code(ds, 1), None, false, RelayRaw in ds, Decision.Intercept in ds)
  }

  function ConnectRun(net: Inet, v: Server, creds: Option<Creds>, dst: Address): HookRun {
    var peer := PeerAddress(net, dst);
    if v.onConnect.Some? then v.onConnect.value(Shown(v, creds, peer), peer) else HookRun([], false)
  }

  // A hook of this connection has made the call.
  predicate Called(net: Inet, v: Server, creds: Option<Creds>, dst: Address, d: Decision) {
    d in AuthorizeRun(v, creds).decisions || d in ConnectRun(net, v, creds, dst).decisions
  }

  // The connect hook refuses: it raises, or its last ok or reject is a reject.
  predicate Refused(run: HookRun) {
    run.raises || Rejects(run.decisions, false)
  }

  // An exception counts as a general failure.
  function RefusalCode(run: HookRun): int {
    if run.raises then 1 else Code(run.decisions, 0)
  }

  // Where the connection goes: the hook's last set_target, or where it was asked to go.
  function Destination(net: Inet, v: Server, creds: Option<Creds>, dst: Address): Address {
    Target(ConnectRun(net, v, creds, dst).decisions, PeerAddress(net, dst))
  }

  // ---- the flags the verdict goes by -----------------------------------------

  lemma AuthorizeRead(v: Server, creds: Option<Creds>)
    requires v.authorize.Some? == creds.Some?
    ensures Denied(creds, AsHooks(v)) == !Admits(v, creds)
    ensures Admits(v, creds) ==> Reads(INITIAL_FLAGS, AuthorizeRun(v, creds).decisions, AuthFlags(creds, AsHooks(v)))
  {
    if creds.Some? {
      var run := AuthorizeRun(v, creds);
      var all := run.decisions + if run.raises then [Reject(NOT_ALLOWED)] else [];
      assert AuthDecisions(v, INITIAL_FLAGS, creds.value) == all;
      CallsRead(INITIAL_FLAGS, all);
      if !run.raises {
        assert all == run.decisions;
      }
    }
  }

  // What the connect hook leaves: its own calls, and its exception.
  lemma HookRead(net: Inet, v: Server, creds: Option<Creds>, dst: Address)
    requires v.authorize.Some? == creds.Some? && Admits(v, creds)
    ensures var g := ForConnect(AuthFlags(creds, AsHooks(v)), PeerAddress(net, dst));
            var run := ConnectRun(net, v, creds, dst);
            var f := DecideAll(g, HookDecisions(v, g, PeerAddress(net, dst)));
            && f.raw == Called(net, v, creds, dst, RelayRaw)
            && f.intercepted == Called(net, v, creds, dst, Decision.Intercept)
            && f.rejected == Refused(run)
            && (f.rejected ==> f.rep == RefusalCode(run))
            && f.target == Some(Destination(net, v, creds, dst))
            && (!run.raises ==>
                  && f.failed == Fails(run.decisions)
                  && f.bound == Bound(run.decisions, None)
                  && f.rep == Code(run.decisions, g.rep))
  {
    hide Normal, Lawful;
    var peer := PeerAddress(net, dst);
    var g := ForConnect(AuthFlags(creds, AsHooks(v)), peer);
    AuthorizeRead(v, creds);
    assert g == Shown(v, creds, peer);
    var run := ConnectRun(net, v, creds, dst);
    var all := run.decisions + if run.raises then [Reject(GENERAL_FAILURE)] else [];
    CallsRead(g, run.decisions);
    assert DecideAll(g, []) == g;
    if run.raises {
      assert all[..|all| - 1] == run.decisions;
    } else {
      assert all == run.decisions;
      if Refused(run) {
        RejectionCode(run.decisions, g.rep, 0);
      }
    }
    assert HookDecisions(v, g, peer) == (if v.onConnect.Some? then all else []);
  }

  lemma DecideOne(f: Flags, d: Decision)
    ensures DecideAll(f, [d]) == Decide(f, d)
  {
    assert [d][..0] == [] && DecideAll(f, []) == f;
  }

  // What the driver adds to the calls of the hook.
  lemma DriverRead(net: Inet, v: Server, f: Flags, dst: Address)
    requires f.target.Some?
    ensures DecideAll(f, DriverDecisions(v, f, dst))
            == if f.rejected then f
               else if f.intercepted then f.(bound := Some(dst))
               else match v.dial(f.target.value)
                    case Opened(b) => f.(bound := Some(b))
                    case Refused => f.(failed := true, rep := 5)
                    case TimedOut => f.(failed := true, rep := 6)
                    case NetUnreachable => f.(failed := true, rep := 3)
                    case OtherOsError => f.(failed := true, rep := 4)
                    case Crashed => f
  {
    hide DecideAll;
    forall d {
      DecideOne(f, d);
    }
    NoneDecided(f);
  }

  lemma NoneDecided(f: Flags)
    ensures DecideAll(f, []) == f
  {
  }

  // ---- the thread ------------------------------------------------------------

  // A thread was given a whole pipeline for CONNECT, with anything behind it, from a
  // client its policy matches and its authorize hook lets in; it left neither on an error
  // of the client's socket nor on an exception.
  ghost predicate Attended(net: Inet, v: Server, creds: Option<Creds>, dst: Address, early: bytes,
                           unread: bytes, exit: Exit, trace: seq<Event>, ops: seq<S.Op>) {
    && v.authorize.Some? == creds.Some? && Admits(v, creds)
    && C.Pipeline(net, creds, 1, dst).Some?
    && Accounts(net, v, C.Pipeline(net, creds, 1, dst).value + early, unread, exit, trace, ops)
    && !exit.SocketError? && !exit.Uncaught?
  }

  // The client of the thread reads this reply, the whole of what it is sent.
  predicate Told(net: Inet, creds: Option<Creds>, trace: seq<Event>, rep: int, bound: Address) {
    && 0 <= rep < 256
    && C.Spec(net, creds.Some?, Sends(trace)) == C.Reading(C.Done(Reply(rep as byte, bound)), [])
  }

  // The flags once hook and driver have had their turn.
  function Last(net: Inet, v: Server, creds: Option<Creds>, dst: Address): Flags {
    FinalFlags(net, creds, dst, AsHooks(v))
  }

  lemma LastRead(net: Inet, v: Server, creds: Option<Creds>, dst: Address)
    ensures var g := ForConnect(AuthFlags(creds, AsHooks(v)), PeerAddress(net, dst));
            var f := DecideAll(g, HookDecisions(v, g, PeerAddress(net, dst)));
            Last(net, v, creds, dst) == DecideAll(f, DriverDecisions(v, f, PeerAddress(net, dst)))
  {
    hide Normal, Lawful, DecideAll, DriverDecisions, HookDecisions, ForConnect;
    var peer := PeerAddress(net, dst);
    var g := ForConnect(AuthFlags(creds, AsHooks(v)), peer);
    var ds := HookDecisions(v, g, peer);
    DecideAppend(g, ds, DriverDecisions(v, DecideAll(g, ds), peer));
  }

  // A thread that has been handed the last event has left on it.
  lemma ExitFollows(net: Inet, v: Server, stream: bytes, unread: bytes, exit: Exit, trace: seq<Event>, ops: seq<S.Op>)
    requires Accounts(net, v, stream, unread, exit, trace, ops) && !exit.SocketError? && !exit.Uncaught?
    ensures !exit.Undecided?
    ensures S.Finished(trace) ==>
              match trace[|trace| - 1]
              case Relay(up) => exit == Relays(up)
              case Close(reason) => exit == Closing(reason)
              case _ => true
  {
    hide S.Spec, S.Hooked, S.Arrived, AsHooks, Scheduled, Held;
  }

  // The thread's trace, from the flags.
  lemma ThreadRead(net: Inet, v: Server, creds: Option<Creds>, dst: Address, early: bytes,
                   unread: bytes, exit: Exit, trace: seq<Event>, ops: seq<S.Op>)
    requires Attended(net, v, creds, dst, early, unread, exit, trace, ops)
    ensures trace == Expected(net, creds, 1, dst, AsHooks(v))
    ensures !Denied(creds, AsHooks(v))
    ensures S.Finished(trace) ==>
              match trace[|trace| - 1]
              case Relay(up) => exit == Relays(up)
              case Close(reason) => exit == Closing(reason)
              case _ => true
  {
    hide C.Pipeline, C.Spec, Sends, AsHooks, Expected, Denied, Accounts, Admits, TakenOver, ExpectedVerdict;
    AuthorizeRead(v, creds);
    ExitFollows(net, v, C.Pipeline(net, creds, 1, dst).value + early, unread, exit, trace, ops);
    X.ServesThePipeline(net, v, creds, 1, dst, early, unread, exit, trace, ops);
  }

  // The conversation with a client that is let in, from the flags.
  lemma ExpectedRead(net: Inet, creds: Option<Creds>, dst: Address, h: S.Hooks)
    requires !Denied(creds, h)
    ensures var trace := Expected(net, creds, 1, dst, h);
            && trace == Opening(creds, h) + [Connect(CONNECT, PeerAddress(net, dst))]
                        + S.ConnectVerdict(net, FinalFlags(net, creds, dst, h))
            && (!FinalFlags(net, creds, dst, h).raw ==>
                  C.Spec(net, creds.Some?, Sends(trace)) == C.Reading(ExpectedVerdict(net, creds, 1, dst, h), []))
  {
    hide C.Spec, Sends, S.ConnectVerdict, Opening, Denied, Normal, Lawful, FinalFlags, ExpectedVerdict;
    var trace := Expected(net, creds, 1, dst, h);
    if !FinalFlags(net, creds, dst, h).raw {
      TranscriptReading(net, creds, 1, dst, h, []);
      assert Sends(trace) + [] == Sends(trace);
    }
  }

  // The thread answers the request and closes.
  lemma ThreadCloses(net: Inet, v: Server, creds: Option<Creds>, dst: Address, early: bytes,
                     unread: bytes, exit: Exit, trace: seq<Event>, ops: seq<S.Op>)
    requires Attended(net, v, creds, dst, early, unread, exit, trace, ops)
    requires var f := Last(net, v, creds, dst); !f.raw && (f.rejected || f.failed) && 0 <= f.rep < 256
    ensures var f := Last(net, v, creds, dst);
            && exit == Closing(if f.rejected then RequestRejected else UpstreamFailed)
            && Told(net, creds, trace, f.rep, ZERO_ADDRESS)
  {
    hide C.Pipeline, C.Spec, Sends, AsHooks, Opening, Denied, Accounts, Last, Message, Lawful, Normal;
    ThreadRead(net, v, creds, dst, early, unread, exit, trace, ops);
    ExpectedRead(net, creds, dst, AsHooks(v));
    var f := Last(net, v, creds, dst);
    ZeroEncodable(net);
    MessageBuilds(net, f.rep, ZERO_ADDRESS);
    BuiltVerdict(net, f.rep);
    LastIsFinal(net, v, creds, dst);
  }

  // The thread answers the request with success and relays.
  lemma ThreadRelays(net: Inet, v: Server, creds: Option<Creds>, dst: Address, early: bytes,
                     unread: bytes, exit: Exit, trace: seq<Event>, ops: seq<S.Op>)
    requires Attended(net, v, creds, dst, early, unread, exit, trace, ops)
    requires var f := Last(net, v, creds, dst);
             && !f.raw && !f.rejected && !f.failed && f.bound.Some? && f.target.Some? && Encodable(net, f.bound.value)
    ensures var f := Last(net, v, creds, dst);
            && exit == Relays(f.target.value)
            && Told(net, creds, trace, 0, PeerAddress(net, f.bound.value))
  {
    hide C.Pipeline, C.Spec, Sends, AsHooks, Opening, Denied, Accounts, Last, Message, Lawful, Normal;
    ThreadRead(net, v, creds, dst, early, unread, exit, trace, ops);
    ExpectedRead(net, creds, dst, AsHooks(v));
    MessageBuilds(net, SUCCEEDED, Last(net, v, creds, dst).bound.value);
    LastIsFinal(net, v, creds, dst);
  }

  lemma LastIsFinal(net: Inet, v: Server, creds: Option<Creds>, dst: Address)
    ensures Last(net, v, creds, dst) == FinalFlags(net, creds, dst, AsHooks(v))
  {
  }

  // ---- the table -------------------------------------------------------------

  // A connect hook that refuses: the client is told the hook's code, or 1 for an
  // exception, and the thread closes; the dial has no say.
  lemma HookRefuses(net: Inet, v: Server, creds: Option<Creds>, dst: Address, early: bytes,
                    unread: bytes, exit: Exit, trace: seq<Event>, ops: seq<S.Op>)
    requires Attended(net, v, creds, dst, early, unread, exit, trace, ops)
    requires !Called(net, v, creds, dst, RelayRaw)
    requires var run := ConnectRun(net, v, creds, dst); Refused(run) && 0 <= RefusalCode(run) < 256
    ensures exit == Closing(RequestRejected)
    ensures Told(net, creds, trace, RefusalCode(ConnectRun(net, v, creds, dst)), ZERO_ADDRESS)
  {
    hide Told, AsHooks, Accounts, C.Pipeline, DecideAll, DriverDecisions, HookDecisions, ForConnect, AuthFlags;
    hide Called, ConnectRun, Destination;
    HookRead(net, v, creds, dst);
    LastRead(net, v, creds, dst);
    var g := ForConnect(AuthFlags(creds, AsHooks(v)), PeerAddress(net, dst));
    DriverRead(net, v, DecideAll(g, HookDecisions(v, g, PeerAddress(net, dst))), PeerAddress(net, dst));
    ThreadCloses(net, v, creds, dst, early, unread, exit, trace, ops);
  }

  // A connect hook that intercepts: the client is told it is connected, to the address it
  // asked for, and the dial has no say.
  lemma HookIntercepts(net: Inet, v: Server, creds: Option<Creds>, dst: Address, early: bytes,
                       unread: bytes, exit: Exit, trace: seq<Event>, ops: seq<S.Op>)
    requires Attended(net, v, creds, dst, early, unread, exit, trace, ops)
    requires !Called(net, v, creds, dst, RelayRaw) && Called(net, v, creds, dst, Decision.Intercept)
    requires var run := ConnectRun(net, v, creds, dst); !Refused(run) && !Fails(run.decisions)
    requires Encodable(net, PeerAddress(net, dst))
    ensures exit == Relays(Destination(net, v, creds, dst))
    ensures Told(net, creds, trace, 0, PeerAddress(net, dst))
  {
    hide Told, AsHooks, Accounts, C.Pipeline, DecideAll, DriverDecisions, HookDecisions, ForConnect, AuthFlags;
    hide Called, ConnectRun, Destination, Normal, Encodable;
    HookRead(net, v, creds, dst);
    LastRead(net, v, creds, dst);
    var g := ForConnect(AuthFlags(creds, AsHooks(v)), PeerAddress(net, dst));
    DriverRead(net, v, DecideAll(g, HookDecisions(v, g, PeerAddress(net, dst))), PeerAddress(net, dst));
    ThreadRelays(net, v, creds, dst, early, unread, exit, trace, ops);
    NormalIdempotent(net, dst.host);
  }

  // The REP for a dial that does not open.
  function DialCode(d: Dialled): int {
    match d
    case Refused => 5
    case TimedOut => 6
    case NetUnreachable => 3
    case OtherOsError => 4
    case _ => 0
  }

  // Otherwise the connection is dialled, at the hook's last target or where it was asked
  // for: the client is told the address it was opened from and the relay goes where it
  // was dialled, or the client is told the code of what went wrong.
  lemma Dials(net: Inet, v: Server, creds: Option<Creds>, dst: Address, early: bytes,
              unread: bytes, exit: Exit, trace: seq<Event>, ops: seq<S.Op>)
    requires Attended(net, v, creds, dst, early, unread, exit, trace, ops)
    requires !Called(net, v, creds, dst, RelayRaw) && !Called(net, v, creds, dst, Decision.Intercept)
    requires !Refused(ConnectRun(net, v, creds, dst))
    ensures match v.dial(Destination(net, v, creds, dst))
            case Crashed => true
            case Opened(b) =>
              Encodable(net, b) && !Fails(ConnectRun(net, v, creds, dst).decisions) ==>
                exit == Relays(Destination(net, v, creds, dst)) && Told(net, creds, trace, 0, PeerAddress(net, b))
            case d => exit == Closing(UpstreamFailed) && Told(net, creds, trace, DialCode(d), ZERO_ADDRESS)
  {
    hide Told, AsHooks, Accounts, C.Pipeline, DecideAll, DriverDecisions, HookDecisions, ForConnect, AuthFlags;
    hide Called, ConnectRun, Destination, Normal, Encodable;
    HookRead(net, v, creds, dst);
    LastRead(net, v, creds, dst);
    var g := ForConnect(AuthFlags(creds, AsHooks(v)), PeerAddress(net, dst));
    DriverRead(net, v, DecideAll(g, HookDecisions(v, g, PeerAddress(net, dst))), PeerAddress(net, dst));
    match v.dial(Destination(net, v, creds, dst))
    case Crashed =>
    case Opened(b) =>
      if Encodable(net, b) && !Fails(ConnectRun(net, v, creds, dst).decisions) {
        ThreadRelays(net, v, creds, dst, early, unread, exit, trace, ops);
      }
    case _ => ThreadCloses(net, v, creds, dst, early, unread, exit, trace, ops);
  }

  // A connect hook that reports a failure without refusing: its code stands when the dial
  // opens or is not needed.
  lemma HookFails(net: Inet, v: Server, creds: Option<Creds>, dst: Address, early: bytes,
                  unread: bytes, exit: Exit, trace: seq<Event>, ops: seq<S.Op>)
    requires Attended(net, v, creds, dst, early, unread, exit, trace, ops)
    requires !Called(net, v, creds, dst, RelayRaw)
    requires var run := ConnectRun(net, v, creds, dst);
             !Refused(run) && Fails(run.decisions) && 0 <= Code(run.decisions, 0) < 256
    requires || Called(net, v, creds, dst, Decision.Intercept)
             || v.dial(Destination(net, v, creds, dst)).Opened?
    ensures exit == Closing(UpstreamFailed)
    ensures Told(net, creds, trace, Code(ConnectRun(net, v, creds, dst).decisions, 0), ZERO_ADDRESS)
  {
    hide Told, AsHooks, Accounts, C.Pipeline, DecideAll, DriverDecisions, HookDecisions, ForConnect, AuthFlags;
    hide Called, ConnectRun, Destination, Normal;
    HookRead(net, v, creds, dst);
    LastRead(net, v, creds, dst);
    var g := ForConnect(AuthFlags(creds, AsHooks(v)), PeerAddress(net, dst));
    FailureCode(ConnectRun(net, v, creds, dst).decisions, g.rep, 0);
    DriverRead(net, v, DecideAll(g, HookDecisions(v, g, PeerAddress(net, dst))), PeerAddress(net, dst));
    ThreadCloses(net, v, creds, dst, early, unread, exit, trace, ops);
  }

  // A hook that takes the reply over: no reply is sent, whatever else was called, and the
  // relay goes to the last target.
  lemma HookTakesOver(net: Inet, v: Server, creds: Option<Creds>, dst: Address, early: bytes,
                      unread: bytes, exit: Exit, trace: seq<Event>, ops: seq<S.Op>)
    requires Attended(net, v, creds, dst, early, unread, exit, trace, ops)
    requires Called(net, v, creds, dst, RelayRaw)
    ensures exit == Relays(Destination(net, v, creds, dst))
    ensures Sends(trace) == if creds.Some? then [5, 2, 1, 0] else [5, 0]
  {
    hide AsHooks, Accounts, C.Pipeline, DecideAll, DriverDecisions, HookDecisions, ForConnect, AuthFlags;
    hide Called, ConnectRun, Destination, Normal, Sends, Opening, Denied, C.Spec;
    HookRead(net, v, creds, dst);
    LastRead(net, v, creds, dst);
    var peer := PeerAddress(net, dst);
    var g := ForConnect(AuthFlags(creds, AsHooks(v)), peer);
    DriverRead(net, v, DecideAll(g, HookDecisions(v, g, peer)), peer);
    ThreadRead(net, v, creds, dst, early, unread, exit, trace, ops);
    ExpectedRead(net, creds, dst, AsHooks(v));
    var head := Opening(creds, AsHooks(v));
    var relay := Relay(Destination(net, v, creds, dst));
    assert trace == head + [Connect(CONNECT, peer)] + [relay];
    OpeningSends(creds, AsHooks(v));
    SendsSnoc(head, Connect(CONNECT, peer));
    SendsSnoc(head + [Connect(CONNECT, peer)], relay);
    assert Sends(head) + [] + [] == Sends(head);
  }

  // The authorize hook refuses, if and only if it raises or its last ok or reject is a
  // reject: the thread then closes, and the client is told status 1 behind the choice of
  // method, and nothing more.
  lemma Authorizes(net: Inet, v: Server, creds: Creds, cmd: int, dst: Address, early: bytes,
                   unread: bytes, exit: Exit, trace: seq<Event>, ops: seq<S.Op>)
    requires v.authorize.Some? && C.Pipeline(net, Some(creds), cmd, dst).Some?
    requires Accounts(net, v, C.Pipeline(net, Some(creds), cmd, dst).value + early, unread, exit, trace, ops)
    requires !exit.SocketError? && !exit.Uncaught?
    ensures exit == Closing(AuthRejected) <==> !Admits(v, Some(creds))
    ensures Admits(v, Some(creds)) ==> [5, 2, 1, 0] <= Sends(trace)
    ensures !Admits(v, Some(creds)) ==> Sends(trace) == [5, 2, 1, 1]
  {
    hide C.Pipeline, Sends, AsHooks, RequestEvents, Admits, S.Hooked, S.Arrived, Denied, C.Spec;
    var h := AsHooks(v);
    AuthorizeRead(v, Some(creds));
    X.ServesThePipeline(net, v, Some(creds), cmd, dst, early, unread, exit, trace, ops);
    OpeningSends(Some(creds), h);
    if Admits(v, Some(creds)) {
      SendsAppend(Opening(Some(creds), h), RequestEvents(net, Some(creds), cmd, dst, h));
      NotAuthRejected(net, Some(creds), cmd, dst, h);
    }
  }

  lemma NotAuthRejected(net: Inet, creds: Option<Creds>, cmd: int, dst: Address, h: S.Hooks)
    ensures Close(AuthRejected) !in RequestEvents(net, creds, cmd, dst, h)
    ensures RequestEvents(net, creds, cmd, dst, h) != []
  {
    hide Lawful, Message, FinalFlags;
  }

  // Any command but CONNECT is answered 7, and no hook is asked.
  lemma OtherCommands(net: Inet, v: Server, creds: Option<Creds>, cmd: int, dst: Address, early: bytes,
                      unread: bytes, exit: Exit, trace: seq<Event>, ops: seq<S.Op>)
    requires v.authorize.Some? == creds.Some? && Admits(v, creds) && cmd != 1
    requires C.Pipeline(net, creds, cmd, dst).Some?
    requires Accounts(net, v, C.Pipeline(net, creds, cmd, dst).value + early, unread, exit, trace, ops)
    requires !exit.SocketError? && !exit.Uncaught?
    ensures exit == Closing(CommandNotSupported)
    ensures Told(net, creds, trace, 7, ZERO_ADDRESS)
    ensures forall e :: e in trace ==> !e.Connect?
  {
    hide C.Pipeline, Sends, AsHooks, S.Hooked, S.Arrived, Denied, C.Spec, Message, Lawful, FinalFlags;
    AuthorizeRead(v, creds);
    X.ServesThePipeline(net, v, creds, cmd, dst, early, unread, exit, trace, ops);
    ZeroEncodable(net);
    MessageBuilds(net, CMD_NOT_SUPPORTED, ZERO_ADDRESS);
    TranscriptReading(net, creds, cmd, dst, AsHooks(v), []);
    assert Sends(trace) + [] == Sends(trace);
  }
}
