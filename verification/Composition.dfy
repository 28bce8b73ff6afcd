// Optimistic client and server joined by two FIFO byte queues. The client has sent
// its whole pipeline, and `early` behind it, before reading anything. Every chunking
// of either queue and every interleaving of deliveries, pulls, feeds and tunnel
// traffic is a run.
module Composition {
  import opened Wire
  import opened Codec
  import opened CodecLaws
  import opened ServerModel
  import opened Transcript
  import opened Links
  import E = Exchanges
  import S = ServerSpec
  import C = ClientModel

  // The server's end, and what the client has been fed.
  datatype Sys = Sys(link: Link, chunks: seq<bytes>)

  function Client(p: Policy, y: Sys): C.Run {
    C.Fed(p.net, p.creds.Some?, y.chunks)
  }

  // A client that has its verdict reads no more: later bytes belong to the tunnel.
  function Perform(p: Policy, y: Sys, a: E.Action): Sys {
    match a
    case Serve(step) => y.(link := Move(p, y.link, step))
    case Take(n) =>
      if Client(p, y).verdict != C.Waiting then y
      else
        var k := Min(n, |y.link.down|);
        Sys(Exchanged(y.link, k, []), y.chunks + [y.link.down[..k]])
  }

  function Exchange(p: Policy, sent: bytes, actions: seq<E.Action>): Sys {
    if actions == [] then Sys(Fresh(sent), [])
    else Perform(p, Exchange(p, sent, actions[..|actions| - 1]), actions[|actions| - 1])
  }

  // Nothing is lost on the link, and the client accepts all it is fed.
  ghost predicate Inv(p: Policy, sent: bytes, y: Sys) {
    && Balanced(p, sent, Concat(y.chunks), y.link)
    && Client(p, y).taken == Concat(y.chunks)
  }

  // The client on the wire: it has sent everything, and reads until what it has taken
  // gives a verdict.
  function Optimistic(p: Policy, sent: bytes): E.Talker {
    E.Talker(seen => C.Spec(p.net, p.creds.Some?, seen).verdict == C.Waiting, seen => sent, true)
  }

  function OnWire(y: Sys): E.State {
    E.State(y.link, Concat(y.chunks))
  }

  lemma OptimisticSteady(p: Policy, sent: bytes)
    ensures E.Steady(Optimistic(p, sent), |sent|)
  {
    hide C.Spec;
  }

  lemma ClientWaits(p: Policy, sent: bytes, y: Sys)
    ensures Client(p, y).verdict == C.Waiting <==> Optimistic(p, sent).waits(OnWire(y).seen)
  {
    hide C.Fed, C.Spec;
    C.ChunkingIndependence(p.net, p.creds.Some?, y.chunks);
  }

  // The incremental client, fed in chunks, is that client on the wire.
  lemma {:induction false} Refines(p: Policy, sent: bytes, actions: seq<E.Action>)
    ensures var y := Exchange(p, sent, actions);
            && OnWire(y) == E.Exchange(p, Optimistic(p, sent), actions)
            && Client(p, y).taken == Concat(y.chunks)
  {
    hide Perform, E.Perform, C.Fed, Concat;
    if actions == [] {
      NothingFed(p);
    } else {
      var init := actions[..|actions| - 1];
      Refines(p, sent, init);
      StepRefines(p, sent, Exchange(p, sent, init), actions[|actions| - 1]);
    }
  }

  lemma NothingFed(p: Policy)
    ensures Concat([]) == [] && C.Fed(p.net, p.creds.Some?, []).taken == []
  {
  }

  lemma StepRefines(p: Policy, sent: bytes, y: Sys, a: E.Action)
    requires Client(p, y).taken == Concat(y.chunks)
    ensures var z := Perform(p, y, a);
            && OnWire(z) == E.Perform(p, Optimistic(p, sent), OnWire(y), a)
            && Client(p, z).taken == Concat(z.chunks)
  {
    hide C.Fed, C.Feed, C.Spec, Concat, Move;
    ClientWaits(p, sent, y);
    if a.Take? && Client(p, y).verdict == C.Waiting {
      var k := Min(a.n, |y.link.down|);
      C.FedSnoc(p.net, p.creds.Some?, y.chunks, y.link.down[..k]);
      C.CompleteWhenDone(p.net, p.creds.Some?, y.chunks);
      ConcatSnoc(y.chunks, y.link.down[..k]);
    }
  }

  // In every reachable state no byte of either direction is lost, duplicated or
  // reordered.
  lemma Conservation(p: Policy, sent: bytes, actions: seq<E.Action>)
    ensures Inv(p, sent, Exchange(p, sent, actions))
  {
    hide Balanced, Exchange, E.Exchange, C.Fed;
    Refines(p, sent, actions);
    OptimisticSteady(p, sent);
    E.Conservation(p, Optimistic(p, sent), |sent|, actions);
  }

  // ---- matching policies -----------------------------------------------------

  // Nothing more can happen except deliveries nobody needs.
  predicate Quiescent(p: Policy, y: Sys) {
    && Rests(p, y.link)
    && (y.link.down == [] || Client(p, y).verdict != C.Waiting)
  }

  // In every reachable state, whatever the chunking and the interleaving: the server
  // has handed out a prefix of one fixed trace, so the bytes sent to the client are a
  // prefix of one fixed transcript before any tunnel byte, and the client has either
  // no verdict or the one the hook answers fix.
  lemma Safety(p: Policy, cmd: int, dst: Address, early: bytes, actions: seq<E.Action>)
    requires p.requireAuth == p.creds.Some? && C.Pipeline(p.net, p.creds, cmd, dst).Some?
    ensures var y := Exchange(p, C.Pipeline(p.net, p.creds, cmd, dst).value + early, actions);
            var expected := Expected(p.net, p.creds, cmd, dst, p.h);
            && Server(p, y.link).trace <= expected
            && Concat(y.chunks) + y.link.down == Sends(Server(p, y.link).trace) + y.link.tunnel
            && Concat(y.chunks) <= Sends(expected) + y.link.tunnel
            && (y.link.tunnel != [] ==> Server(p, y.link).trace == expected)
            && (!TakenOver(p.net, p.creds, cmd, dst, p.h) && Client(p, y).verdict != C.Waiting ==>
                  Client(p, y).verdict == ExpectedVerdict(p.net, p.creds, cmd, dst, p.h))
  {
    hide Exchange, C.Pipeline, S.Hooked, C.Fed, Sends, Expected, TakenOver, C.Spec, S.Spec, ExpectedVerdict;
    var sent := C.Pipeline(p.net, p.creds, cmd, dst).value + early;
    var y := Exchange(p, sent, actions);
    var expected := Expected(p.net, p.creds, cmd, dst, p.h);
    Conservation(p, sent, actions);
    PipelineStory(p.net, p.creds, cmd, dst, p.h, early);
    TracePrefix(p, sent, Concat(y.chunks), y.link, []);
    assert sent + [] == sent;
    if y.link.tunnel != [] {
      RestStory(p, sent, Concat(y.chunks), y.link);
    }
    var seen := Concat(y.chunks) + y.link.down;
    var unsent := Unsent(Server(p, y.link).trace, expected);
    UnsentRest(p, y, expected);
    C.ChunkingIndependence(p.net, p.creds.Some?, y.chunks);
    if !TakenOver(p.net, p.creds, cmd, dst, p.h) && Client(p, y).verdict != C.Waiting {
      C.SpecStable(p.net, p.creds.Some?, Concat(y.chunks), y.link.down + unsent);
      assert Concat(y.chunks) + (y.link.down + unsent) == seen + unsent;
      TranscriptReading(p.net, p.creds, cmd, dst, p.h, y.link.tunnel);
    }
  }

  // What the server has still to send.
  function Unsent(trace: seq<Event>, expected: seq<Event>): bytes
    requires trace <= expected
  {
    Sends(expected[|trace|..])
  }

  lemma UnsentRest(p: Policy, y: Sys, expected: seq<Event>)
    requires Server(p, y.link).trace <= expected
    requires Concat(y.chunks) + y.link.down == Sends(Server(p, y.link).trace) + y.link.tunnel
    requires y.link.tunnel != [] ==> Server(p, y.link).trace == expected
    ensures Concat(y.chunks) + y.link.down + Unsent(Server(p, y.link).trace, expected)
            == Sends(expected) + y.link.tunnel
    ensures Concat(y.chunks) <= Sends(expected) + y.link.tunnel
  {
    hide S.Hooked, Sends;
    var trace := Server(p, y.link).trace;
    var unsent := Unsent(trace, expected);
    SendsAppend(trace, expected[|trace|..]);
    assert trace + expected[|trace|..] == expected;
    if y.link.tunnel != [] {
      assert expected[|trace|..] == [];
      NoSends();
    }
    assert Sends(trace) + y.link.tunnel + unsent == Sends(expected) + y.link.tunnel;
    var whole := Concat(y.chunks) + (y.link.down + unsent);
    assert whole == Sends(expected) + y.link.tunnel;
    assert Concat(y.chunks) == whole[..|Concat(y.chunks)|];
  }

  // Authorize carries exactly the client's credentials and Connect its target, with
  // the host in the form a literal is printed.
  lemma EventsCarryTheRequest(p: Policy, cmd: int, dst: Address, early: bytes, actions: seq<E.Action>, e: Event)
    requires p.requireAuth == p.creds.Some? && C.Pipeline(p.net, p.creds, cmd, dst).Some?
    requires e in Server(p, Exchange(p, C.Pipeline(p.net, p.creds, cmd, dst).value + early, actions).link).trace
    ensures e.Authorize? ==> p.creds == Some(e.creds)
    ensures e.Connect? ==> cmd == CONNECT as int && e == Connect(CONNECT, PeerAddress(p.net, dst))
  {
    hide Exchange, C.Pipeline, S.Hooked, Expected, PeerAddress;
    Safety(p, cmd, dst, early, actions);
    ExpectedCarries(p.net, p.creds, cmd, dst, p.h, e);
  }

  lemma ExpectedCarries(net: Inet, creds: Option<Creds>, cmd: int, dst: Address, h: S.Hooks, e: Event)
    requires e in Expected(net, creds, cmd, dst, h)
    ensures e.Authorize? ==> creds == Some(e.creds)
    ensures e.Connect? ==> cmd == CONNECT as int && e == Connect(CONNECT, PeerAddress(net, dst))
  {
    hide Lawful, Message, FinalFlags, AuthFlags, PeerAddress;
  }

  // At quiescence the whole expected trace has happened, the client has the verdict
  // the hook answers fix, the bytes of the pipeline nobody consumed are exactly the
  // surplus, and after a reply the client's leftover and what is in flight are
  // exactly the tunnel bytes.
  lemma Quiescence(p: Policy, cmd: int, dst: Address, early: bytes, actions: seq<E.Action>)
    requires p.requireAuth == p.creds.Some? && C.Pipeline(p.net, p.creds, cmd, dst).Some?
    requires Message(p.net, cmd, dst).Some?
    requires Quiescent(p, Exchange(p, C.Pipeline(p.net, p.creds, cmd, dst).value + early, actions))
    ensures var y := Exchange(p, C.Pipeline(p.net, p.creds, cmd, dst).value + early, actions);
            && Server(p, y.link).trace == Expected(p.net, p.creds, cmd, dst, p.h)
            && Server(p, y.link).s.buf + y.link.up == Surplus(p.net, p.creds, cmd, dst, p.h, early)
            && (!TakenOver(p.net, p.creds, cmd, dst, p.h) ==>
                  && Client(p, y).verdict == ExpectedVerdict(p.net, p.creds, cmd, dst, p.h)
                  && (Client(p, y).verdict.Done? ==> Client(p, y).c.buf + y.link.down == y.link.tunnel))
  {
    hide Exchange, C.Pipeline, S.Hooked, C.Fed, Sends, Expected, TakenOver, C.Spec, S.Spec, ExpectedVerdict;
    hide S.Settled, Surplus, Message;
    var sent := C.Pipeline(p.net, p.creds, cmd, dst).value + early;
    var y := Exchange(p, sent, actions);
    Safety(p, cmd, dst, early, actions);
    Conservation(p, sent, actions);
    PipelineStory(p.net, p.creds, cmd, dst, p.h, early);
    RestStory(p, sent, Concat(y.chunks), y.link);
    if !TakenOver(p.net, p.creds, cmd, dst, p.h) {
      ClientAtRest(p, cmd, dst, y);
    }
  }

  lemma ClientAtRest(p: Policy, cmd: int, dst: Address, y: Sys)
    requires !TakenOver(p.net, p.creds, cmd, dst, p.h)
    requires Server(p, y.link).trace == Expected(p.net, p.creds, cmd, dst, p.h)
    requires Concat(y.chunks) + y.link.down == Sends(Server(p, y.link).trace) + y.link.tunnel
    requires y.link.tunnel != [] ==> Relayed(Server(p, y.link).trace)
    requires Client(p, y).taken == Concat(y.chunks)
    requires y.link.down == [] || Client(p, y).verdict != C.Waiting
    ensures Client(p, y).verdict == ExpectedVerdict(p.net, p.creds, cmd, dst, p.h)
    ensures Client(p, y).verdict.Done? ==> Client(p, y).c.buf + y.link.down == y.link.tunnel
  {
    hide S.Hooked, C.Fed, Sends, Expected, TakenOver, C.Spec, FinalFlags, AuthFlags;
    TranscriptReading(p.net, p.creds, cmd, dst, p.h, y.link.tunnel);
    C.ChunkingIndependence(p.net, p.creds.Some?, y.chunks);
    if Client(p, y).verdict == C.Waiting {
      assert Concat(y.chunks) + y.link.down == Concat(y.chunks);
    } else {
      C.SpecStable(p.net, p.creds.Some?, Concat(y.chunks), y.link.down);
    }
  }

  // ---- rest is reached, and by every fair schedule ----------------------------

  lemma QuiescentOnWire(p: Policy, sent: bytes, actions: seq<E.Action>)
    ensures Quiescent(p, Exchange(p, sent, actions))
            <==> E.Quiescent(p, Optimistic(p, sent), E.Exchange(p, Optimistic(p, sent), actions))
  {
    hide Exchange, E.Exchange, Rests, C.Fed, C.Spec;
    Refines(p, sent, actions);
    ClientWaits(p, sent, Exchange(p, sent, actions));
  }

  // From every reachable state some continuation is quiescent.
  lemma QuiescenceReachable(p: Policy, sent: bytes, actions: seq<E.Action>)
    ensures exists more :: Quiescent(p, Exchange(p, sent, actions + more))
  {
    hide Quiescent, Exchange, E.Quiescent, E.Exchange;
    OptimisticSteady(p, sent);
    E.QuiescenceReachable(p, Optimistic(p, sent), |sent|, actions);
    var more :| E.Quiescent(p, Optimistic(p, sent), E.Exchange(p, Optimistic(p, sent), actions + more));
    QuiescentOnWire(p, sent, actions + more);
  }

  // From every reachable state, every schedule that gives each side its turn comes to
  // rest, within as many rounds as there are bytes sent and in the tunnel, and 263 for
  // each of six events.
  lemma FairSchedulesRest(p: Policy, sent: bytes, actions: seq<E.Action>, rounds: seq<seq<E.Action>>)
    requires forall round :: round in rounds ==> E.Fair(round)
    requires |rounds| >= |sent| + 263 * 6 + |Exchange(p, sent, actions).link.tunnel|
    ensures Quiescent(p, Exchange(p, sent, actions + E.Flatten(rounds)))
  {
    hide Quiescent, Exchange, E.Quiescent, E.Exchange, E.Fair, E.Flatten, C.Fed;
    OptimisticSteady(p, sent);
    Refines(p, sent, actions);
    E.FairRestWithin(p, Optimistic(p, sent), |sent|, actions, rounds);
    QuiescentOnWire(p, sent, actions + E.Flatten(rounds));
  }
}
