// The server's driver loop over a session: it pulls events, does the socket work and
// runs the hooks. Sockets, hooks and dialling are oracles; the loop is the source's.
module Driver {
  import opened Wire
  import opened Codec
  import opened ServerModel
  import opened ServerSessions
  import opened Transcript
  import opened Schedules
  import opened WaitBounds
  import S = ServerSpec
  import G = ServerGrammar

  datatype Read = Bytes(data: bytes) | End | OsError

  // The SOCKS client's connection. A receive returns any non-empty piece of what the
  // client still sends, its end, or an error.
  class Downstream {
    var incoming: bytes
    var written: bytes
    var open: bool

    constructor (incoming: bytes)
      ensures this.incoming == incoming && written == [] && open
    {
      this.incoming := incoming;
      written := [];
      open := true;
    }

    method Recv(max: nat) returns (r: Read)
      requires max > 0
      modifies this`incoming
      ensures r.Bytes? ==> 0 < |r.data| <= max && old(incoming) == r.data + incoming
      ensures !r.Bytes? ==> incoming == old(incoming)
      ensures r.End? ==> incoming == []
    {
      if * {
        return OsError;
      }
      if incoming == [] {
        return End;
      }
      var k: nat :| 0 < k <= max && k <= |incoming|;
      assert incoming == incoming[..k] + incoming[k..];
      r := Bytes(incoming[..k]);
      incoming := incoming[k..];
    }

    // All of the data goes out, or the call raises when some part of it has gone.
    method SendAll(data: bytes) returns (ok: bool)
      modifies this`written
      ensures old(written) <= written <= old(written) + data
      ensures ok ==> written == old(written) + data
    {
      var k: nat :| k <= |data|;
      ok := k == |data|;
      assert data == data[..k] + data[k..];
      written := written + data[..k];
    }

    method Close()
      modifies this`open
      ensures !open
    {
      open := false;
    }
  }

  // What a user's hook does: decision calls, then perhaps an exception.
  datatype HookRun = HookRun(decisions: seq<Decision>, raises: bool)

  datatype Dialled = Opened(bound: Address) | Refused | TimedOut | NetUnreachable | OtherOsError | Crashed

  // The registered hooks and the outcome of dialling. A hook may look at the session's
  // flags; Crashed is an exception `_dial` does not catch.
  datatype Server = Server(
    authorize: Option<(Flags, Creds) -> HookRun>,
    onConnect: Option<(Flags, Address) -> HookRun>,
    dial: Address -> Dialled)

  // ---- the decisions a driver records ----------------------------------------

  function AuthDecisions(v: Server, f: Flags, creds: Creds): seq<Decision> {
    match v.authorize
    case None => [Ok]
    case Some(hook) =>
      var run := hook(f, creds);
      run.decisions + if run.raises then [Reject(NOT_ALLOWED)] else []
  }

  function HookDecisions(v: Server, f: Flags, dst: Address): seq<Decision> {
    match v.onConnect
    case None => []
    case Some(hook) =>
      var run := hook(f, dst);
      run.decisions + if run.raises then [Reject(GENERAL_FAILURE)] else []
  }

  // `_dial`: what is recorded for each outcome.
  function DialDecisions(d: Dialled): seq<Decision> {
    match d
    case Opened(bound) => [Connected(bound)]
    case Refused => [ConnectFailed(CONN_REFUSED)]
    case TimedOut => [ConnectFailed(TTL_EXPIRED)]
    case NetUnreachable => [ConnectFailed(NET_UNREACHABLE)]
    case OtherOsError => [ConnectFailed(HOST_UNREACHABLE)]
    case Crashed => []
  }

  function DriverDecisions(v: Server, f: Flags, dst: Address): seq<Decision> {
    if f.rejected then []
    else if f.intercepted then [Connected(dst)]
    else DialDecisions(v.dial(if f.target.Some? then f.target.value else dst))
  }

  // The driver and its hooks, seen by the session.
  function AsHooks(v: Server): S.Hooks {
    S.Hooks(
      (f, creds) => AuthDecisions(v, f, creds),
      (f, cmd, dst) =>
        var ds := HookDecisions(v, f, dst);
        ds + DriverDecisions(v, DecideAll(f, ds), dst))
  }

  lemma {:induction false} DecideAppend(f: Flags, ds: seq<Decision>, es: seq<Decision>)
    ensures DecideAll(f, ds + es) == DecideAll(DecideAll(f, ds), es)
  {
    hide Decide;
    if es == [] {
      assert ds + es == ds;
    } else {
      DecideAppend(f, ds, es[..|es| - 1]);
      assert (ds + es)[..|ds + es| - 1] == ds + es[..|es| - 1];
    }
  }

  // ---- the loop --------------------------------------------------------------

  datatype Exit =
    | Relays(upstream: Address)  // the pipe or splice has run
    | Closing(reason: Reason)
    | ClientGone                   // end of stream while more was needed
    | SocketError                  // OSError, swallowed
    | Uncaught                     // an exception of the reply builder or the dial
    | Undecided                    // "no upstream decision was made"

  // A session waiting on a connection has been told about it.
  predicate Decided(s: Srv) {
    s.phase == ConnectWait && s.out == [] ==>
      s.flags.raw || s.flags.rejected || s.flags.failed || s.flags.bound.Some?
  }

  method ApplyAll(sess: ServerSession, ds: seq<Decision>)
    requires sess.Valid()
    modifies sess
    ensures sess.Valid()
    ensures sess.State() == old(sess.State()).(flags := DecideAll(old(sess.State()).flags, ds))
    ensures TotalData(sess.calls) == old(TotalData(sess.calls))
  {
    hide Run, Next;
    for i := 0 to |ds|
      invariant sess.Valid()
      invariant sess.State() == old(sess.State()).(flags := DecideAll(old(sess.State()).flags, ds[..i]))
      invariant TotalData(sess.calls) == old(TotalData(sess.calls))
    {
      assert ds[..i + 1][..i] == ds[..i];
      ApplyOne(sess, ds[i]);
    }
    assert ds[..|ds|] == ds;
  }

  method ApplyOne(sess: ServerSession, d: Decision)
    requires sess.Valid()
    modifies sess
    ensures sess.Valid()
    ensures sess.State() == old(sess.State()).(flags := Decide(old(sess.State()).flags, d))
    ensures TotalData(sess.calls) == old(TotalData(sess.calls))
  {
    hide Run, Next, Decide;
    TotalSnoc(sess.calls, Do(d));
    match d {
      case Ok => sess.Ok();
      case Reject(rep) => sess.Reject(rep);
      case SetTarget(a) => sess.SetTarget(a);
      case Connected(a) => sess.Connected(a);
      case ConnectFailed(rep) => sess.ConnectFailed(rep);
      case RelayRaw => sess.RelayRaw();
      case Intercept => sess.Intercept();
    }
  }

  // ---- the hooks as the loop runs them ---------------------------------------

  method OnAuthorize(v: Server, sess: ServerSession, creds: Creds)
    requires sess.Valid()
    modifies sess
    ensures sess.Valid()
    ensures sess.State() == S.Respond(AsHooks(v), old(sess.State()), Authorize(creds))
    ensures TotalData(sess.calls) == old(TotalData(sess.calls))
  {
    hide Run, Next;
    ghost var f := sess.State().flags;
    if v.authorize.Some? {
      var run := v.authorize.value(sess.State().flags, creds);
      ApplyAll(sess, run.decisions);
      DecideAppend(f, run.decisions, AuthDecisions(v, f, creds)[|run.decisions|..]);
      if run.raises {
        ApplyAll(sess, [Reject(NOT_ALLOWED)]);
      } else {
        assert run.decisions + [] == run.decisions;
      }
    } else {
      ApplyAll(sess, [Ok]);
    }
  }

  // Runs the connect hook, then dials unless the hook decided already. Crashed dials
  // are reported: the exception leaves the loop.
  method OnConnect(v: Server, sess: ServerSession, cmd: byte, dst: Address) returns (crashed: bool)
    requires sess.Valid()
    requires sess.State().flags == ForConnect(sess.State().flags, dst)
    modifies sess
    ensures sess.Valid()
    ensures sess.State() == S.Respond(AsHooks(v), old(sess.State()), Connect(cmd, dst))
    ensures !crashed ==> Decided(sess.State())
    ensures TotalData(sess.calls) == old(TotalData(sess.calls))
  {
    hide Run, Next;
    ghost var f := sess.State().flags;
    if v.onConnect.Some? {
      var run := v.onConnect.value(sess.State().flags, dst);
      ApplyAll(sess, run.decisions);
      DecideAppend(f, run.decisions, HookDecisions(v, f, dst)[|run.decisions|..]);
      if run.raises {
        ApplyAll(sess, [Reject(GENERAL_FAILURE)]);
      } else {
        assert run.decisions + [] == run.decisions;
      }
    }
    ghost var ds := HookDecisions(v, f, dst);
    assert sess.State().flags == DecideAll(f, ds);
    TargetStays(f, ds);
    DecideAppend(f, ds, DriverDecisions(v, DecideAll(f, ds), dst));
    crashed := false;
    if sess.rejected {
      assert ds + [] == ds;
    } else if sess.intercepted {
      ApplyAll(sess, [Connected(dst)]);
    } else {
      crashed := Dial(v, sess);
    }
  }

  lemma {:induction false} TargetStays(f: Flags, ds: seq<Decision>)
    requires f.target.Some?
    ensures DecideAll(f, ds).target.Some?
  {
    if ds == [] {
    } else {
      TargetStays(f, ds[..|ds| - 1]);
    }
  }

  // `_dial`
  method Dial(v: Server, sess: ServerSession) returns (crashed: bool)
    requires sess.Valid() && sess.target.Some?
    modifies sess
    ensures sess.Valid()
    ensures var f := old(sess.State()).flags;
            sess.State() == old(sess.State()).(flags := DecideAll(f, DialDecisions(v.dial(f.target.value))))
    ensures !crashed ==> sess.State().flags.bound.Some? || sess.State().flags.failed
    ensures TotalData(sess.calls) == old(TotalData(sess.calls))
  {
    hide Run, Next;
    crashed := false;
    match v.dial(sess.target.value) {
      case Opened(bound) => ApplyAll(sess, [Connected(bound)]);
      case Refused => ApplyAll(sess, [ConnectFailed(CONN_REFUSED)]);
      case TimedOut => ApplyAll(sess, [ConnectFailed(TTL_EXPIRED)]);
      case NetUnreachable => ApplyAll(sess, [ConnectFailed(NET_UNREACHABLE)]);
      case OtherOsError => ApplyAll(sess, [ConnectFailed(HOST_UNREACHABLE)]);
      case Crashed => crashed := true;
    }
  }

  // ---- facts about one pull --------------------------------------------------

  // Only a Connect event brings a session to wait on a connection.
  lemma DecidedKept(net: Inet, s: Srv)
    requires Decided(s) && WellFormed(s)
    ensures var (t, e) := Next(net, s);
            && (e.Connect? || Decided(t))
            && e != Raised(NoDecision)
            && (e.Authorize? ==> t.phase == AuthWait)
            && (e.Connect? ==> t.phase == ConnectWait && t.out == [] && t.flags == ForConnect(t.flags, e.dst))
  {
    hide Lawful, Message, MessageSize, ParseMessage, ParseGreeting, ParseUserpass, UserpassSize;
  }

  // ---- the loop itself -------------------------------------------------------

  // The hooked run that the loop has performed: `ops` so far, `unread` still to come.
  ghost predicate Tracks(net: Inet, v: Server, ops: seq<S.Op>, s: Srv, trace: seq<Event>,
                         unread: bytes, stream: bytes)
  {
    && S.Hooked(net, v.authorize.Some?, AsHooks(v), ops) == S.Config(s, trace)
    && S.Arrived(ops) + unread == stream
    && WellFormed(s)
    && Scheduled(net, v.authorize.Some?, AsHooks(v), ops)
  }

  // The loop is about to receive, not to pull.
  predicate Asks(net: Inet, v: Server, ops: seq<S.Op>) {
    Asked(net, v.authorize.Some?, AsHooks(v), ops)
  }

  lemma TracksStart(net: Inet, v: Server, stream: bytes)
    ensures Tracks(net, v, [], Init(v.authorize.Some?), [], stream, stream) && !Asks(net, v, [])
  {
    assert [] + stream == stream;
  }

  lemma TracksEvent(net: Inet, v: Server, ops: seq<S.Op>, s: Srv, trace: seq<Event>, unread: bytes, stream: bytes)
    requires Tracks(net, v, ops, s, trace, unread, stream) && !S.Finished(trace) && !Asks(net, v, ops)
    ensures Asks(net, v, ops + [S.Turn]) <==> Next(net, s).1 == NeedData
    ensures var (t, e) := Next(net, s);
            if Stutters(e) then t == s && Tracks(net, v, ops + [S.Turn], s, trace, unread, stream)
            else Tracks(net, v, ops + [S.Turn], S.Respond(AsHooks(v), t, e), trace + [e], unread, stream)
  {
    hide S.Hooked, S.Arrived, Next, S.Respond, S.Spec, S.Remaining, AsHooks, Scheduled, Asked;
    var h := AsHooks(v);
    ScheduleTurn(net, v.authorize.Some?, h, ops);
    assert (ops + [S.Turn])[..|ops|] == ops;
    S.HookedSnoc(net, v.authorize.Some?, AsHooks(v), ops, S.Turn);
    S.ArrivedSnoc(ops, S.Turn);
    assert S.Arrived(ops) + [] == S.Arrived(ops);
    S.TraceInvariant(net, v.authorize.Some?, h, ops, []);
    S.TraceInvariant(net, v.authorize.Some?, h, ops + [S.Turn], []);
    S.PullStep(net, h, s, []);
  }

  lemma TracksChunk(net: Inet, v: Server, ops: seq<S.Op>, s: Srv, trace: seq<Event>,
                    chunk: bytes, unread: bytes, stream: bytes)
    requires Tracks(net, v, ops, s, trace, chunk + unread, stream)
    requires Asks(net, v, ops) && 0 < |chunk| <= RECV_SIZE
    ensures !Asks(net, v, ops + [S.Arrive(chunk)])
    ensures Tracks(net, v, ops + [S.Arrive(chunk)], s.(buf := s.buf + chunk), trace, unread, stream)
    ensures |S.Arrived(ops + [S.Arrive(chunk)])| == |S.Arrived(ops)| + |chunk|
  {
    hide S.Hooked, S.Arrived, AsHooks, Scheduled, Asked;
    ScheduleArrive(net, v.authorize.Some?, AsHooks(v), ops, chunk);
    S.HookedSnoc(net, v.authorize.Some?, AsHooks(v), ops, S.Arrive(chunk));
    S.ArrivedSnoc(ops, S.Arrive(chunk));
    assert S.Arrived(ops) + chunk + unread == S.Arrived(ops) + (chunk + unread);
  }

  // What the loop has handed out is a prefix of the batch trace of all the client
  // sends, at most six events, and the whole of it once it ends or nothing is left.
  lemma TracksMeans(net: Inet, v: Server, ops: seq<S.Op>, s: Srv, trace: seq<Event>, unread: bytes, stream: bytes)
    requires Tracks(net, v, ops, s, trace, unread, stream)
    ensures var es := S.Spec(net, v.authorize.Some?, stream, AsHooks(v)).events;
            && trace <= es && |trace| <= 6
            && (!S.Finished(trace) ==> |trace| <= 5)
            && (S.Finished(trace) || (unread == [] && Stutters(Next(net, s).1)) ==> trace == es)
            && (S.Finished(trace) ==> S.Spec(net, v.authorize.Some?, stream, AsHooks(v)).rest == s.buf + unread)
  {
    hide S.Hooked, S.Arrived, S.Spec, Next, AsHooks, Scheduled;
    var ra, h := v.authorize.Some?, AsHooks(v);
    S.SpecLength(net, ra, stream, h);
    S.Refinement(net, ra, h, ops, unread);
    if S.Finished(trace) {
      S.FinishedIsFinal(net, ra, h, ops, unread);
    }
    assert unread == [] ==> S.Arrived(ops) + unread == S.Arrived(ops);
  }

  // The loop's invariant: besides the run performed, what has been counted. `total` is
  // the bytes received, `asks` the pulls that gave NeedData.
  ghost predicate InLoop(net: Inet, v: Server, ops: seq<S.Op>, s: Srv, trace: seq<Event>, unread: bytes,
                         stream: bytes, total: nat, asks: nat, pulls: nat) {
    && Tracks(net, v, ops, s, trace, unread, stream)
    && !S.Finished(trace) && !Asks(net, v, ops)
    && Decided(s)
    && total == |S.Arrived(ops)|
    && pulls == asks + |trace| == Pulls(ops)
    && asks <= total && asks <= 1032 && |trace| <= 5
  }

  lemma LoopStart(net: Inet, v: Server, stream: bytes)
    ensures InLoop(net, v, [], Init(v.authorize.Some?), [], stream, stream, 0, 0, 0)
    ensures TotalData([]) == 0 && Sends([]) == []
  {
    TracksStart(net, v, stream);
  }

  // A pull that asks for more: it is at most the 1032nd such pull, because at most 1031
  // bytes have been received and each earlier one brought at least one.
  lemma LoopAsk(net: Inet, v: Server, ops: seq<S.Op>, s: Srv, trace: seq<Event>, unread: bytes,
                stream: bytes, calls: seq<Call>, asks: nat, pulls: nat)
    requires InLoop(net, v, ops, s, trace, unread, stream, TotalData(calls), asks, pulls)
    requires s == Run(net, v.authorize.Some?, calls).0 && Next(net, s).1 == NeedData
    ensures Next(net, s).0 == s && asks <= 1031 && pulls < 1037 && pulls + 1 == Pulls(ops + [S.Turn])
    ensures Tracks(net, v, ops + [S.Turn], s, trace, unread, stream) && Asks(net, v, ops + [S.Turn])
    ensures var es := S.Spec(net, v.authorize.Some?, stream, AsHooks(v)).events;
            trace <= es && (unread == [] ==> trace == es) && !S.Finished(trace)
  {
    hide Run, Next, TotalData, Tracks, S.Spec, AsHooks, Asks, Pulls;
    PullsSnoc(ops, S.Turn);
    WaitBound(net, v.authorize.Some?, calls);
    ReceivedByCalls(net, v.authorize.Some?, calls);
    TracksEvent(net, v, ops, s, trace, unread, stream);
    TracksMeans(net, v, ops, s, trace, unread, stream);
  }

  lemma LoopChunk(net: Inet, v: Server, ops: seq<S.Op>, s: Srv, trace: seq<Event>, chunk: bytes, unread: bytes,
                  stream: bytes, total: nat, asks: nat, pulls: nat)
    requires InLoop(net, v, ops, s, trace, chunk + unread, stream, total, asks, pulls)
    requires Tracks(net, v, ops + [S.Turn], s, trace, chunk + unread, stream) && asks <= 1031
    requires Asks(net, v, ops + [S.Turn]) && 0 < |chunk| <= RECV_SIZE
    ensures InLoop(net, v, ops + [S.Turn] + [S.Arrive(chunk)], s.(buf := s.buf + chunk), trace, unread, stream,
                   total + |chunk|, asks + 1, pulls + 1)
  {
    hide Tracks, AsHooks, S.Arrived, Asks, Pulls;
    TracksChunk(net, v, ops + [S.Turn], s, trace, chunk, unread, stream);
    PullsSnoc(ops, S.Turn);
    PullsSnoc(ops + [S.Turn], S.Arrive(chunk));
    S.ArrivedSnoc(ops, S.Turn);
  }

  // A pull that gives an event.
  lemma LoopEvent(net: Inet, v: Server, ops: seq<S.Op>, s: Srv, trace: seq<Event>, unread: bytes,
                  stream: bytes, total: nat, asks: nat, pulls: nat)
    requires InLoop(net, v, ops, s, trace, unread, stream, total, asks, pulls)
    requires Next(net, s).1 != NeedData
    ensures var (t, e) := Next(net, s);
            var u := S.Respond(AsHooks(v), t, e);
            var es := S.Spec(net, v.authorize.Some?, stream, AsHooks(v)).events;
            && e != Raised(NoDecision)
            && (e.Authorize? ==> t.phase == AuthWait)
            && (if e.Connect? then t.flags == ForConnect(t.flags, e.dst) else Decided(t))
            && trace + [e] <= es
            && (Terminal(e) ==>
                  trace + [e] == es && S.Spec(net, v.authorize.Some?, stream, AsHooks(v)).rest == u.buf + unread)
            && pulls < 1038 && pulls + 1 == Pulls(ops + [S.Turn])
            && Tracks(net, v, ops + [S.Turn], u, trace + [e], unread, stream)
            && (!Terminal(e) && Decided(u) ==>
                  InLoop(net, v, ops + [S.Turn], u, trace + [e], unread, stream, total, asks, pulls + 1))
  {
    hide Next, Tracks, S.Spec, S.Arrived, S.Respond, Decided, AsHooks, Asks, Pulls;
    PullsSnoc(ops, S.Turn);
    TracksWellFormed(net, v, ops, s, trace, unread, stream);
    DecidedKept(net, s);
    TracksEvent(net, v, ops, s, trace, unread, stream);
    var (t, e) := Next(net, s);
    TracksMeans(net, v, ops + [S.Turn], S.Respond(AsHooks(v), t, e), trace + [e], unread, stream);
    RespondBuffer(AsHooks(v), t, e);
    S.ArrivedSnoc(ops, S.Turn);
  }

  lemma RespondBuffer(h: S.Hooks, t: Srv, e: Event)
    ensures S.Respond(h, t, e).buf == t.buf
  {
  }

  lemma TracksWellFormed(net: Inet, v: Server, ops: seq<S.Op>, s: Srv, trace: seq<Event>, unread: bytes, stream: bytes)
    requires Tracks(net, v, ops, s, trace, unread, stream)
    ensures WellFormed(s)
  {
  }

  lemma WaitsForAuth(s: Srv)
    requires s.phase == AuthWait
    ensures Decided(s)
  {
  }

  // How a thread's exit, the events it was handed and the bytes it left on the socket
  // follow from the batch story of all the client sends. `ops` is what its loop did; a
  // thread that relays leaves behind the bytes that the session still holds.
  ghost predicate Accounts(net: Inet, v: Server, stream: bytes, unread: bytes,
                           exit: Exit, trace: seq<Event>, ops: seq<S.Op>)
  {
    var story := S.Spec(net, v.authorize.Some?, stream, AsHooks(v));
    && Scheduled(net, v.authorize.Some?, AsHooks(v), ops)
    && S.Arrived(ops) + unread == stream
    && S.Hooked(net, v.authorize.Some?, AsHooks(v), ops).trace == trace <= story.events
    && (match exit
        case Relays(upstream) =>
          && trace == story.events && Relayed(trace) && trace[|trace| - 1] == Relay(upstream)
          && story.rest == Held(net, v.authorize.Some?, AsHooks(v), ops) + unread
        case Closing(reason) => trace == story.events && trace != [] && trace[|trace| - 1] == Close(reason)
        case ClientGone => trace == story.events && unread == [] && !S.Finished(trace)
        case SocketError => true
        case Uncaught => trace != [] && (trace[|trace| - 1].Connect? || trace[|trace| - 1] == Raised(Unencodable))
        case Undecided => false)
  }

  // Leaving on an event that was just handed out.
  lemma LeaveAccounts(net: Inet, v: Server, ops: seq<S.Op>, s: Srv, stream: bytes, unread: bytes, exit: Exit,
                      trace: seq<Event>, e: Event)
    requires Tracks(net, v, ops, s, trace + [e], unread, stream)
    requires var story := S.Spec(net, v.authorize.Some?, stream, AsHooks(v));
             && trace + [e] <= story.events && (Terminal(e) ==> trace + [e] == story.events)
             && (e.Relay? ==> story.rest == s.buf + unread)
    requires match exit
             case Relays(upstream) => e == Relay(upstream)
             case Closing(reason) => e == Close(reason)
             case SocketError => true
             case Uncaught => e.Connect? || e == Raised(Unencodable)
             case _ => false
    ensures Accounts(net, v, stream, unread, exit, trace + [e], ops)
  {
    hide S.Spec, AsHooks, S.Hooked, Scheduled;
  }

  lemma StayAccounts(net: Inet, v: Server, ops: seq<S.Op>, s: Srv, stream: bytes, unread: bytes, exit: Exit,
                     trace: seq<Event>)
    requires Tracks(net, v, ops, s, trace, unread, stream)
    requires var es := S.Spec(net, v.authorize.Some?, stream, AsHooks(v)).events;
             trace <= es && (unread == [] ==> trace == es)
    requires exit.SocketError? || (exit.ClientGone? && unread == [] && !S.Finished(trace))
    ensures Accounts(net, v, stream, unread, exit, trace, ops)
  {
    hide S.Spec, AsHooks, S.Hooked, Scheduled;
  }

  // The thread of one connection. Within 1038 pulls it relays, closes or leaves early;
  // it has then handed out exactly the batch trace of what the client sent (a prefix of
  // it when it leaves early), has sent exactly the answers in it, and has never pulled
  // from a session that was waiting on an unmade decision. When it relays, the relay is
  // left the client's surplus without the part the session still holds.
  method Handle(net: Inet, v: Server, down: Downstream)
    returns (exit: Exit, pulls: nat, ghost trace: seq<Event>, ghost ops: seq<S.Op>)
    requires down.open
    modifies down
    ensures pulls == Pulls(ops) <= 1038
    ensures !exit.Undecided?
    ensures !down.open
    ensures Accounts(net, v, old(down.incoming), down.incoming, exit, trace, ops)
    ensures if exit.SocketError? then old(down.written) <= down.written <= old(down.written) + Sends(trace)
            else down.written == old(down.written) + Sends(trace)
  {
    exit, pulls, trace, ops := Serve(net, v, down);
    down.Close();
  }

  // What the loop does with an event other than NeedData; Some: it leaves.
  method Dispatch(v: Server, sess: ServerSession, down: Downstream, e: Event) returns (left: Option<Exit>)
    requires sess.Valid() && !e.NeedData?
    requires e.Authorize? ==> sess.state == AuthWait
    requires if e.Connect? then sess.State().flags == ForConnect(sess.State().flags, e.dst) else Decided(sess.State())
    modifies sess, down`written
    ensures sess.Valid()
    ensures TotalData(sess.calls) == old(TotalData(sess.calls))
    ensures left == None ==>
              && !Terminal(e) && !e.Raised?
              && sess.State() == S.Respond(AsHooks(v), old(sess.State()), e)
              && Decided(sess.State())
              && down.written == old(down.written) + if e.Send? then e.data else []
    ensures e.Relay? ==> sess.State() == old(sess.State())
    ensures left.Some? ==>
              && old(down.written) <= down.written <= old(down.written) + (if e.Send? then e.data else [])
              && (left.value != SocketError ==> down.written == old(down.written))
              && match left.value
                 case Relays(upstream) => e == Relay(upstream)
                 case Closing(reason) => e == Close(reason)
                 case SocketError => e.Send?
                 case Uncaught => e.Connect? || e == Raised(Unencodable)
                 case Undecided => e == Raised(NoDecision)
                 case ClientGone => false
  {
    hide Run, AsHooks, Decided, TotalData;
    left := None;
    match e {
      case Send(data) =>
        var ok := down.SendAll(data);
        if !ok {
          left := Some(SocketError);
        }
      case Authorize(creds) =>
        OnAuthorize(v, sess, creds);
        WaitsForAuth(sess.State());
        assert down.written + [] == down.written;
      case Connect(cmd, dst) =>
        var crashed := OnConnect(v, sess, cmd, dst);
        assert down.written + [] == down.written;
        if crashed {
          left := Some(Uncaught);
        }
      case Relay(upstream) => left := Some(Relays(upstream));
      case Close(reason) => left := Some(Closing(reason));
      case Raised(f) => left := Some(if f.NoDecision? then Undecided else Uncaught);
    }
  }

  // One receive, and what it brings handed to the session.
  method Refill(sess: ServerSession, down: Downstream) returns (got: Read)
    requires sess.Valid()
    modifies sess, down`incoming
    ensures sess.Valid()
    ensures got.Bytes? ==>
              && 0 < |got.data| <= RECV_SIZE && old(down.incoming) == got.data + down.incoming
              && sess.State() == old(sess.State()).(buf := old(sess.State()).buf + got.data)
              && TotalData(sess.calls) == old(TotalData(sess.calls)) + |got.data|
    ensures !got.Bytes? ==> down.incoming == old(down.incoming)
    ensures got.End? ==> down.incoming == []
  {
    hide Run, Next, TotalData;
    got := down.Recv(RECV_SIZE);
    if got.Bytes? {
      TotalSnoc(sess.calls, Receive(got.data));
      sess.Receive(got.data);
    }
  }

  method Serve(net: Inet, v: Server, down: Downstream)
    returns (exit: Exit, pulls: nat, ghost trace: seq<Event>, ghost ops: seq<S.Op>)
    modifies down`incoming, down`written
    ensures pulls == Pulls(ops) <= 1038
    ensures !exit.Undecided?
    ensures Accounts(net, v, old(down.incoming), down.incoming, exit, trace, ops)
    ensures if exit.SocketError? then old(down.written) <= down.written <= old(down.written) + Sends(trace)
            else down.written == old(down.written) + Sends(trace)
  {
    hide Run, Next, Sends, S.Spec, AsHooks, InLoop, Accounts, Tracks, Decided, TotalData, Lawful, S.Respond, Pulls;
    var sess := new ServerSession(net, v.authorize.Some?);
    ghost var stream := down.incoming;
    ghost var asks := 0;
    pulls, trace, ops := 0, [], [];
    LoopStart(net, v, stream);
    while true
      invariant sess.Valid() && fresh(sess) && sess.net == net && sess.requireAuth == v.authorize.Some?
      invariant InLoop(net, v, ops, sess.State(), trace, down.incoming, stream, TotalData(sess.calls), asks, pulls)
      invariant down.written == old(down.written) + Sends(trace)
      decreases 1038 - pulls
    {
      ghost var s := sess.State();
      ghost var calls := sess.calls;
      TotalSnoc(calls, Pull);
      var e := sess.NextEvent();
      if e.NeedData? {
        LoopAsk(net, v, ops, s, trace, down.incoming, stream, calls, asks, pulls);
        var got := Refill(sess, down);
        match got {
          case OsError =>
            StayAccounts(net, v, ops + [S.Turn], s, stream, down.incoming, SocketError, trace);
            return SocketError, pulls + 1, trace, ops + [S.Turn];
          case End =>
            StayAccounts(net, v, ops + [S.Turn], s, stream, down.incoming, ClientGone, trace);
            return ClientGone, pulls + 1, trace, ops + [S.Turn];
          case Bytes(data) =>
            LoopChunk(net, v, ops, s, trace, data, down.incoming, stream, TotalData(calls), asks, pulls);
            ops := ops + [S.Turn] + [S.Arrive(data)];
            asks := asks + 1;
        }
      } else {
        LoopEvent(net, v, ops, s, trace, down.incoming, stream, TotalData(calls), asks, pulls);
        SendsSnoc(trace, e);
        var left := Dispatch(v, sess, down, e);
        ops := ops + [S.Turn];
        if left.Some? {
          LeaveAccounts(net, v, ops, S.Respond(AsHooks(v), Next(net, s).0, e), stream, down.incoming, left.value,
                        trace, e);
          return left.value, pulls + 1, trace + [e], ops;
        }
        trace := trace + [e];
      }
      pulls := pulls + 1;
    }
  }
}
