// The server's end of a connection: the session under its driver, and the two byte
// queues that join it to a client. Whatever client is at the other end, every chunking
// of what it sends and every interleaving of pulls and tunnel traffic is a run.
module Links {
  import opened Wire
  import opened Codec
  import opened ServerModel
  import opened Transcript
  import S = ServerSpec

  datatype Policy = Policy(net: Inet, requireAuth: bool, creds: Option<Creds>, h: S.Hooks)

  // What the server has been through, the bytes in flight either way, and the bytes
  // the upstream has sent back through the relay.
  datatype Link = Link(ops: seq<S.Op>, up: bytes, down: bytes, tunnel: bytes)

  datatype Step =
    | Deliver(n: nat)        // the server receives up to n bytes
    | PullOne                 // the server's driver takes one event and acts on it
    | Upstream(data: bytes)  // the relay carries bytes back from the upstream

  // Nothing has happened yet; `sent` is on its way.
  function Fresh(sent: bytes): Link {
    Link([], sent, [], [])
  }

  function Server(p: Policy, l: Link): S.Config {
    S.Hooked(p.net, p.requireAuth, p.h, l.ops)
  }

  function Min(a: nat, b: nat): nat {
    if a < b then a else b
  }

  function Move(p: Policy, l: Link, a: Step): Link {
    match a
    case Deliver(n) =>
      var k := Min(n, |l.up|);
      l.(ops := l.ops + [S.Arrive(l.up[..k])], up := l.up[k..])
    case PullOne =>
      var before := Server(p, l).trace;
      var after := S.PullOnce(p.net, p.h, Server(p, l)).trace;
      l.(ops := l.ops + [S.Turn],
         down := l.down + (if |after| > |before| && after[|before|].Send? then after[|before|].data else []))
    case Upstream(data) =>
      if Relayed(Server(p, l).trace) then l.(down := l.down + data, tunnel := l.tunnel + data) else l
  }

  function MoveAll(p: Policy, l: Link, steps: seq<Step>): Link
    decreases |steps|
  {
    if steps == [] then l else MoveAll(p, Move(p, l, steps[0]), steps[1..])
  }

  // The client takes k bytes and sends some more.
  function Exchanged(l: Link, k: nat, more: bytes): Link
    requires k <= |l.down|
  {
    l.(down := l.down[k..], up := l.up + more)
  }

  // Conservation over both queues: `sent` and `seen` are what the client has sent and
  // taken. Tunnel bytes exist only behind a Relay.
  ghost predicate Balanced(p: Policy, sent: bytes, seen: bytes, l: Link) {
    && S.Arrived(l.ops) + l.up == sent
    && seen + l.down == Sends(Server(p, l).trace) + l.tunnel
    && (l.tunnel != [] ==> Relayed(Server(p, l).trace))
  }

  lemma FreshBalanced(p: Policy, sent: bytes)
    ensures Balanced(p, sent, [], Fresh(sent))
  {
    assert [] + sent == sent;
  }

  // Moving the front of a queue to the end of what was taken loses nothing.
  lemma MoveFront(taken: bytes, queue: bytes, k: nat)
    requires k <= |queue|
    ensures taken + queue[..k] + queue[k..] == taken + queue
  {
    assert queue[..k] + queue[k..] == queue;
    assert taken + queue[..k] + queue[k..] == taken + (queue[..k] + queue[k..]);
  }

  // One pull adds at most one event, and none once the driver has stopped.
  lemma PullTrace(net: Inet, h: S.Hooks, k: S.Config)
    ensures var after := S.PullOnce(net, h, k).trace;
            || after == k.trace
            || (!S.Finished(k.trace) && |after| == |k.trace| + 1 && after == k.trace + [after[|k.trace|]])
  {
    hide Next, S.Respond;
  }

  lemma PullBalanced(p: Policy, sent: bytes, seen: bytes, l: Link)
    requires Balanced(p, sent, seen, l)
    ensures Balanced(p, sent, seen, Move(p, l, PullOne))
  {
    hide S.Hooked, Sends, S.PullOnce, S.Arrived;
    var k := Server(p, l);
    S.ArrivedSnoc(l.ops, S.Turn);
    assert S.Arrived(l.ops) + [] == S.Arrived(l.ops);
    S.HookedSnoc(p.net, p.requireAuth, p.h, l.ops, S.Turn);
    PullTrace(p.net, p.h, k);
    var after := S.PullOnce(p.net, p.h, k).trace;
    if |after| > |k.trace| {
      var e := after[|k.trace|];
      SendsSnoc(k.trace, e);
      var data := if e.Send? then e.data else [];
      assert seen + (l.down + data) == seen + l.down + data;
    } else {
      assert l.down + [] == l.down;
    }
  }

  lemma MoveBalanced(p: Policy, sent: bytes, seen: bytes, l: Link, a: Step)
    requires Balanced(p, sent, seen, l)
    ensures Balanced(p, sent, seen, Move(p, l, a))
  {
    hide S.Hooked, Sends, S.PullOnce, S.Arrived;
    match a
    case Deliver(n) =>
      var k := Min(n, |l.up|);
      S.ArrivedSnoc(l.ops, S.Arrive(l.up[..k]));
      S.HookedSnoc(p.net, p.requireAuth, p.h, l.ops, S.Arrive(l.up[..k]));
      MoveFront(S.Arrived(l.ops), l.up, k);
    case PullOne => PullBalanced(p, sent, seen, l);
    case Upstream(data) =>
      assert seen + (l.down + data) == seen + l.down + data;
      assert Sends(Server(p, l).trace) + l.tunnel + data == Sends(Server(p, l).trace) + (l.tunnel + data);
  }

  lemma {:induction false} MovesBalanced(p: Policy, sent: bytes, seen: bytes, l: Link, steps: seq<Step>)
    requires Balanced(p, sent, seen, l)
    ensures Balanced(p, sent, seen, MoveAll(p, l, steps))
    decreases |steps|
  {
    hide Balanced, Move;
    if steps != [] {
      MoveBalanced(p, sent, seen, l, steps[0]);
      MovesBalanced(p, sent, seen, Move(p, l, steps[0]), steps[1..]);
    }
  }

  lemma ExchangedBalanced(p: Policy, sent: bytes, seen: bytes, l: Link, k: nat, more: bytes)
    requires Balanced(p, sent, seen, l) && k <= |l.down|
    ensures Balanced(p, sent + more, seen + l.down[..k], Exchanged(l, k, more))
  {
    hide S.Hooked, Sends, S.Arrived;
    MoveFront(seen, l.down, k);
    assert S.Arrived(l.ops) + (l.up + more) == S.Arrived(l.ops) + l.up + more;
  }

  // ---- the server at rest ----------------------------------------------------

  // It has stopped, or it has received everything and waits for more.
  predicate Rests(p: Policy, l: Link) {
    S.Finished(Server(p, l).trace) || (l.up == [] && S.Settled(p.net, Server(p, l)))
  }

  // At rest the trace is the batch trace of all that was sent, and the bytes unread in
  // the session's buffer and in flight are those the batch reading never consumes.
  lemma RestStory(p: Policy, sent: bytes, seen: bytes, l: Link)
    requires Balanced(p, sent, seen, l) && Rests(p, l)
    ensures S.Spec(p.net, p.requireAuth, sent, p.h) == S.Story(Server(p, l).trace, Server(p, l).s.buf + l.up)
  {
    hide S.Hooked, S.Spec, Sends, S.Settled, S.Arrived;
    if S.Finished(Server(p, l).trace) {
      S.FinishedIsFinal(p.net, p.requireAuth, p.h, l.ops, l.up);
    } else {
      S.Refinement(p.net, p.requireAuth, p.h, l.ops, []);
      assert S.Arrived(l.ops) + [] == S.Arrived(l.ops);
      assert Server(p, l).s.buf + [] == Server(p, l).s.buf;
    }
  }

  // The trace is a prefix of the batch trace of anything the client may go on to send.
  lemma TracePrefix(p: Policy, sent: bytes, seen: bytes, l: Link, more: bytes)
    requires Balanced(p, sent, seen, l)
    ensures Server(p, l).trace <= S.Spec(p.net, p.requireAuth, sent + more, p.h).events
  {
    hide S.Hooked, S.Spec, Sends, S.Arrived;
    S.Refinement(p.net, p.requireAuth, p.h, l.ops, l.up + more);
    assert S.Arrived(l.ops) + (l.up + more) == sent + more;
  }

  // ---- rest can always be reached --------------------------------------------

  predicate Settling(p: Policy, l: Link, steps: seq<Step>) {
    var after := MoveAll(p, l, steps);
    after.up == [] && S.Settled(p.net, Server(p, after))
  }

  // Every pull but the last adds an event to a trace that is bounded.
  lemma PullsSettle(p: Policy, sent: bytes, seen: bytes, l: Link)
    requires Balanced(p, sent, seen, l) && l.up == []
    ensures exists steps :: Settling(p, l, steps)
    decreases |S.Spec(p.net, p.requireAuth, sent, p.h).events| - |Server(p, l).trace|
  {
    hide S.Hooked, S.Spec, S.Settled, Balanced, Move;
    if S.Settled(p.net, Server(p, l)) {
      assert Settling(p, l, []);
    } else {
      PullGrows(p, sent, seen, l);
      var next := Move(p, l, PullOne);
      PullsSettle(p, sent, seen, next);
      var steps :| Settling(p, next, steps);
      assert ([PullOne] + steps)[1..] == steps;
      assert Settling(p, l, [PullOne] + steps);
    }
  }

  lemma PullGrows(p: Policy, sent: bytes, seen: bytes, l: Link)
    requires Balanced(p, sent, seen, l) && !S.Settled(p.net, Server(p, l))
    ensures var next := Move(p, l, PullOne);
            && Balanced(p, sent, seen, next)
            && next.up == l.up
            && |Server(p, next).trace| == |Server(p, l).trace| + 1
            && |Server(p, next).trace| <= |S.Spec(p.net, p.requireAuth, sent, p.h).events|
  {
    hide S.Hooked, S.Spec, Next, S.Respond, Balanced;
    PullBalanced(p, sent, seen, l);
    S.HookedSnoc(p.net, p.requireAuth, p.h, l.ops, S.Turn);
    TracePrefix(p, sent, seen, Move(p, l, PullOne), []);
    assert sent + [] == sent;
  }

  // From every state, delivering what is in flight and pulling brings the server to
  // rest with nothing in flight.
  lemma RestReachable(p: Policy, sent: bytes, seen: bytes, l: Link)
    requires Balanced(p, sent, seen, l)
    ensures exists steps :: Settling(p, l, steps)
  {
    hide S.Hooked, S.Settled, Balanced;
    var first := Deliver(|l.up|);
    var next := Move(p, l, first);
    MoveBalanced(p, sent, seen, l, first);
    PullsSettle(p, sent, seen, next);
    var steps :| Settling(p, next, steps);
    assert ([first] + steps)[1..] == steps;
    assert Settling(p, l, [first] + steps);
  }
}
