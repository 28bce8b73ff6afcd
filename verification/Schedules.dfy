// The schedules a driver's loop can follow, and which of the client's bytes they leave
// behind in the session when it starts to relay.
module Schedules {
  import opened Wire
  import opened Codec
  import opened CodecLaws
  import opened ServerModel
  import opened Transcript
  import S = ServerSpec
  import C = ClientModel

  const RECV_SIZE := 4096

  // The last thing done was a pull, and it asked for more bytes.
  predicate Asked(net: Inet, requireAuth: bool, h: S.Hooks, ops: seq<S.Op>) {
    && ops != [] && ops[|ops| - 1] == S.Turn
    && var k := S.Hooked(net, requireAuth, h, ops[..|ops| - 1]);
       !S.Finished(k.trace) && Next(net, k.s).1 == NeedData
  }

  // The loop pulls at once unless the last pull asked for more; then, and only then, it
  // receives some bytes, as many as one receive may bring. It stops on a terminal event.
  predicate Scheduled(net: Inet, requireAuth: bool, h: S.Hooks, ops: seq<S.Op>) {
    ops == [] ||
    (var init := ops[..|ops| - 1];
     && Scheduled(net, requireAuth, h, init)
     && match ops[|ops| - 1]
        case Arrive(chunk) => Asked(net, requireAuth, h, init) && 0 < |chunk| <= RECV_SIZE
        case Turn =>
          !Asked(net, requireAuth, h, init) && !S.Finished(S.Hooked(net, requireAuth, h, init).trace))
  }

  function Pulls(ops: seq<S.Op>): nat {
    if ops == [] then 0 else Pulls(ops[..|ops| - 1]) + if ops[|ops| - 1] == S.Turn then 1 else 0
  }

  lemma PullsSnoc(ops: seq<S.Op>, op: S.Op)
    ensures Pulls(ops + [op]) == Pulls(ops) + if op == S.Turn then 1 else 0
  {
    assert (ops + [op])[..|ops|] == ops;
  }

  lemma ScheduleTurn(net: Inet, requireAuth: bool, h: S.Hooks, ops: seq<S.Op>)
    requires Scheduled(net, requireAuth, h, ops) && !Asked(net, requireAuth, h, ops)
    requires !S.Finished(S.Hooked(net, requireAuth, h, ops).trace)
    ensures Scheduled(net, requireAuth, h, ops + [S.Turn])
    ensures Asked(net, requireAuth, h, ops + [S.Turn])
            <==> Next(net, S.Hooked(net, requireAuth, h, ops).s).1 == NeedData
  {
    hide S.Hooked, Next;
    assert (ops + [S.Turn])[..|ops|] == ops;
  }

  lemma ScheduleArrive(net: Inet, requireAuth: bool, h: S.Hooks, ops: seq<S.Op>, chunk: bytes)
    requires Scheduled(net, requireAuth, h, ops) && Asked(net, requireAuth, h, ops)
    requires 0 < |chunk| <= RECV_SIZE
    ensures Scheduled(net, requireAuth, h, ops + [S.Arrive(chunk)])
    ensures !Asked(net, requireAuth, h, ops + [S.Arrive(chunk)])
  {
    hide S.Hooked, Next;
    assert (ops + [S.Arrive(chunk)])[..|ops|] == ops;
  }

  // No receive brings more than 4096 bytes, and none brings nothing.
  lemma {:induction false} ReceivesBounded(net: Inet, requireAuth: bool, h: S.Hooks, ops: seq<S.Op>, chunk: bytes)
    requires Scheduled(net, requireAuth, h, ops) && S.Arrive(chunk) in ops
    ensures 0 < |chunk| <= 4096
  {
    hide Asked, S.Hooked;
    var init := ops[..|ops| - 1];
    assert ops == init + [ops[|ops| - 1]];
    if S.Arrive(chunk) in init {
      ReceivesBounded(net, requireAuth, h, init, chunk);
    }
  }

  // ---- what is left behind ---------------------------------------------------

  // The client's bytes that the session holds: received, and consumed by no message.
  function Held(net: Inet, requireAuth: bool, h: S.Hooks, ops: seq<S.Op>): bytes {
    S.Hooked(net, requireAuth, h, ops).s.buf
  }

  // The loop has come to its Relay having received some of the stream.
  predicate RelayRun(net: Inet, requireAuth: bool, h: S.Hooks, stream: bytes, ops: seq<S.Op>) {
    && Scheduled(net, requireAuth, h, ops)
    && S.Arrived(ops) <= stream
    && Relayed(S.Hooked(net, requireAuth, h, ops).trace)
  }

  // A loop that relays behind a pipeline holds exactly what it received beyond it.
  lemma HeldIsBeyond(net: Inet, creds: Option<Creds>, cmd: int, dst: Address, h: S.Hooks, early: bytes,
                     ops: seq<S.Op>)
    requires C.Pipeline(net, creds, cmd, dst).Some?
    requires RelayRun(net, creds.Some?, h, C.Pipeline(net, creds, cmd, dst).value + early, ops)
    ensures S.Arrived(ops) == C.Pipeline(net, creds, cmd, dst).value + Held(net, creds.Some?, h, ops)
    ensures Held(net, creds.Some?, h, ops) <= early
  {
    hide C.Pipeline, S.Spec, S.Hooked, S.Arrived, Scheduled, Expected, Denied, Message;
    var pipeline := C.Pipeline(net, creds, cmd, dst).value;
    var stream := pipeline + early;
    var unread := stream[|S.Arrived(ops)|..];
    assert S.Arrived(ops) + unread == stream;
    S.FinishedIsFinal(net, creds.Some?, h, ops, unread);
    PipelineStory(net, creds, cmd, dst, h, early);
    PipelineParts(net, creds, cmd, dst, early);
    RelayNotDenied(net, creds, cmd, dst, h);
    var held := Held(net, creds.Some?, h, ops);
    assert held + unread == early;
    assert S.Arrived(ops) + unread == (pipeline + held) + unread;
    assert S.Arrived(ops) == (S.Arrived(ops) + unread)[..|stream| - |unread|];
    assert pipeline + held == ((pipeline + held) + unread)[..|stream| - |unread|];
  }

  lemma RelayNotDenied(net: Inet, creds: Option<Creds>, cmd: int, dst: Address, h: S.Hooks)
    requires Relayed(Expected(net, creds, cmd, dst, h))
    ensures !Denied(creds, h)
  {
    hide Denied, RequestEvents;
  }

  predicate Completes(net: Inet, requireAuth: bool, h: S.Hooks, b: bytes, ops: seq<S.Op>) {
    && Scheduled(net, requireAuth, h, ops)
    && S.Arrived(ops) == b
    && S.Finished(S.Hooked(net, requireAuth, h, ops).trace)
  }

  // Once bytes have arrived whose batch trace is over, the loop pulls on to its end.
  lemma PullsOut(net: Inet, requireAuth: bool, h: S.Hooks, ops: seq<S.Op>)
    requires Scheduled(net, requireAuth, h, ops) && !Asked(net, requireAuth, h, ops)
    requires S.Finished(S.Spec(net, requireAuth, S.Arrived(ops), h).events)
    ensures exists all :: Completes(net, requireAuth, h, S.Arrived(ops), all)
    decreases |S.Spec(net, requireAuth, S.Arrived(ops), h).events| - |S.Hooked(net, requireAuth, h, ops).trace|
  {
    hide S.Hooked, S.Spec, S.Arrived, Scheduled, Asked, Next, S.Respond;
    var k := S.Hooked(net, requireAuth, h, ops);
    if S.Finished(k.trace) {
      assert Completes(net, requireAuth, h, S.Arrived(ops), ops);
    } else {
      S.Refinement(net, requireAuth, h, ops, []);
      ScheduleTurn(net, requireAuth, h, ops);
      S.HookedSnoc(net, requireAuth, h, ops, S.Turn);
      S.ArrivedSnoc(ops, S.Turn);
      assert S.Arrived(ops) + [] == S.Arrived(ops);
      S.Refinement(net, requireAuth, h, ops + [S.Turn], []);
      PullsOut(net, requireAuth, h, ops + [S.Turn]);
    }
  }

  lemma FirstReceive(net: Inet, requireAuth: bool, h: S.Hooks, chunk: bytes)
    requires 0 < |chunk| <= RECV_SIZE
    ensures var ops := [S.Turn, S.Arrive(chunk)];
            && Scheduled(net, requireAuth, h, ops) && !Asked(net, requireAuth, h, ops)
            && S.Arrived(ops) == chunk
  {
    assert [S.Turn, S.Arrive(chunk)] == [] + [S.Turn] + [S.Arrive(chunk)];
    ScheduleTurn(net, requireAuth, h, []);
    ScheduleArrive(net, requireAuth, h, [] + [S.Turn], chunk);
    S.ArrivedSnoc([], S.Turn);
    S.ArrivedSnoc([] + [S.Turn], S.Arrive(chunk));
    assert [] + chunk == chunk;
  }

  lemma PipelineLength(net: Inet, creds: Option<Creds>, cmd: int, dst: Address)
    requires C.Pipeline(net, creds, cmd, dst).Some?
    ensures 0 < |C.Pipeline(net, creds, cmd, dst).value| <= 3 + 513 + 262
  {
    hide Lawful, Message;
    var req := Message(net, cmd, dst).value;
    MessageRoundTrip(net, cmd, dst, []);
    assert req + [] == req;
  }

  // ---- the longest schedules -------------------------------------------------

  predicate Exhausts(net: Inet, requireAuth: bool, h: S.Hooks, b: bytes, ops: seq<S.Op>) {
    && Completes(net, requireAuth, h, b, ops)
    && Pulls(ops) == |b| + |S.Hooked(net, requireAuth, h, ops).trace|
  }

  // Received byte by byte, a stream that its handshake consumes whole costs one pull a
  // byte and one an event.
  lemma ByteByByte(net: Inet, requireAuth: bool, h: S.Hooks, b: bytes, ops: seq<S.Op>, rest: bytes)
    requires Scheduled(net, requireAuth, h, ops) && !Asked(net, requireAuth, h, ops)
    requires S.Arrived(ops) + rest == b
    requires var story := S.Spec(net, requireAuth, b, h); S.Finished(story.events) && story.rest == []
    requires Pulls(ops) == |S.Arrived(ops)| + |S.Hooked(net, requireAuth, h, ops).trace|
    ensures exists all :: Exhausts(net, requireAuth, h, b, all)
    decreases |rest| + |S.Spec(net, requireAuth, b, h).events| - |S.Hooked(net, requireAuth, h, ops).trace|
  {
    hide S.Hooked, S.Spec, S.Arrived, Scheduled, Asked, Next, S.Respond, Pulls;
    var k := S.Hooked(net, requireAuth, h, ops);
    S.Refinement(net, requireAuth, h, ops, rest);
    if S.Finished(k.trace) {
      S.FinishedIsFinal(net, requireAuth, h, ops, rest);
      assert rest == [];
      assert S.Arrived(ops) + rest == S.Arrived(ops);
      assert Exhausts(net, requireAuth, h, b, ops);
    } else {
      var next := ops + [S.Turn];
      ScheduleTurn(net, requireAuth, h, ops);
      S.HookedSnoc(net, requireAuth, h, ops, S.Turn);
      S.ArrivedSnoc(ops, S.Turn);
      PullsSnoc(ops, S.Turn);
      assert S.Arrived(ops) + [] == S.Arrived(ops);
      if Stutters(Next(net, k.s).1) {
        MoreToCome(net, requireAuth, h, ops, rest);
        S.TraceInvariant(net, requireAuth, h, ops, []);
        S.PullStep(net, h, k.s, []);
        var chunk := rest[..1];
        ScheduleArrive(net, requireAuth, h, next, chunk);
        S.HookedSnoc(net, requireAuth, h, next, S.Arrive(chunk));
        S.ArrivedSnoc(next, S.Arrive(chunk));
        PullsSnoc(next, S.Arrive(chunk));
        assert S.Arrived(ops) + chunk + rest[1..] == S.Arrived(ops) + rest;
        ByteByByte(net, requireAuth, h, b, next + [S.Arrive(chunk)], rest[1..]);
      } else {
        S.Refinement(net, requireAuth, h, next, rest);
        ByteByByte(net, requireAuth, h, b, next, rest);
      }
    }
  }

  // A session that stutters short of the end of its story waits for bytes, and some are
  // still to come.
  lemma MoreToCome(net: Inet, requireAuth: bool, h: S.Hooks, ops: seq<S.Op>, rest: bytes)
    requires var k := S.Hooked(net, requireAuth, h, ops); !S.Finished(k.trace) && Stutters(Next(net, k.s).1)
    requires S.Finished(S.Spec(net, requireAuth, S.Arrived(ops) + rest, h).events)
    ensures rest != [] && Next(net, S.Hooked(net, requireAuth, h, ops).s).1 == NeedData
  {
    hide S.Hooked, S.Spec, S.Arrived, Next;
    var k := S.Hooked(net, requireAuth, h, ops);
    S.Refinement(net, requireAuth, h, ops, []);
    assert rest == [] ==> S.Arrived(ops) + rest == S.Arrived(ops);
    S.TraceInvariant(net, requireAuth, h, ops, rest);
    UndecidedIsLast(net, k.s, rest, h);
    assert k.trace + [] == k.trace;
  }

  lemma UndecidedIsLast(net: Inet, s: Srv, more: bytes, h: S.Hooks)
    requires WellFormed(s)
    ensures Next(net, s).1 == Raised(NoDecision) ==> S.Remaining(net, s, more, h).events == []
  {
    hide Lawful, Message, MessageSize, ParseMessage, ParseGreeting, ParseUserpass, UserpassSize;
  }

  // What one receive can bring beyond the pipeline.
  function Overshoot(pipeline: bytes, early: bytes): bytes {
    if |pipeline + early| <= RECV_SIZE then early
    else if |pipeline| <= RECV_SIZE then early[..RECV_SIZE - |pipeline|] else []
  }

  // Some schedule takes as much of the early bytes with the handshake as one receive
  // can bring, all of them if they fit, and the relay never sees those.
  lemma SomeRunHolds(net: Inet, creds: Option<Creds>, cmd: int, dst: Address, h: S.Hooks, early: bytes)
    requires C.Pipeline(net, creds, cmd, dst).Some?
    requires Relayed(Expected(net, creds, cmd, dst, h))
    ensures exists ops ::
              && RelayRun(net, creds.Some?, h, C.Pipeline(net, creds, cmd, dst).value + early, ops)
              && Held(net, creds.Some?, h, ops) == Overshoot(C.Pipeline(net, creds, cmd, dst).value, early)
    ensures |C.Pipeline(net, creds, cmd, dst).value + early| <= 4096 ==>
              exists ops ::
                && RelayRun(net, creds.Some?, h, C.Pipeline(net, creds, cmd, dst).value + early, ops)
                && Held(net, creds.Some?, h, ops) == early
  {
    hide C.Pipeline, S.Spec, S.Hooked, S.Arrived, Scheduled, Asked, Expected;
    var pipeline := C.Pipeline(net, creds, cmd, dst).value;
    var chunk := pipeline + Overshoot(pipeline, early);
    PipelineLength(net, creds, cmd, dst);
    FirstReceive(net, creds.Some?, h, chunk);
    PipelineStory(net, creds, cmd, dst, h, Overshoot(pipeline, early));
    PullsOut(net, creds.Some?, h, [S.Turn, S.Arrive(chunk)]);
    var ops :| Completes(net, creds.Some?, h, chunk, ops);
    S.Refinement(net, creds.Some?, h, ops, []);
    assert chunk == (pipeline + early)[..|chunk|];
    assert RelayRun(net, creds.Some?, h, pipeline + early, ops);
    HeldIsBeyond(net, creds, cmd, dst, h, early, ops);
    assert S.Arrived(ops)[|pipeline|..] == Overshoot(pipeline, early);
    assert (pipeline + Held(net, creds.Some?, h, ops))[|pipeline|..] == Held(net, creds.Some?, h, ops);
  }

  // Whatever the schedule, the relay sees all that the client sent behind its request,
  // if and only if the client sent nothing before it was answered.
  lemma NothingHeldExactly(net: Inet, creds: Option<Creds>, cmd: int, dst: Address, h: S.Hooks, early: bytes)
    requires C.Pipeline(net, creds, cmd, dst).Some?
    requires Relayed(Expected(net, creds, cmd, dst, h))
    ensures var stream := C.Pipeline(net, creds, cmd, dst).value + early;
            (forall ops :: RelayRun(net, creds.Some?, h, stream, ops) ==> Held(net, creds.Some?, h, ops) == [])
            <==> early == []
  {
    hide C.Pipeline, Expected, RelayRun, Held;
    PipelineLength(net, creds, cmd, dst);
    SomeRunHolds(net, creds, cmd, dst, h, early);
    forall ops | RelayRun(net, creds.Some?, h, C.Pipeline(net, creds, cmd, dst).value + early, ops)
      ensures Held(net, creds.Some?, h, ops) <= early
    {
      HeldIsBeyond(net, creds, cmd, dst, h, early, ops);
    }
  }
}
