// Handshakes pipelined through themselves to any depth: one blob holds a whole chain
// of greetings, credentials and requests and then a payload; each hop's session is a
// fresh one fed what the previous left unread.
module Chain {
  import opened Wire
  import opened Codec
  import opened CodecLaws
  import opened ServerModel
  import opened Transcript
  import opened Sockets
  import CodecImpl
  import L = Links
  import S = ServerSpec
  import C = ClientModel

  // One hop: the credentials its proxy demands, where it is asked to connect, and the
  // answers of that proxy's hooks.
  datatype Hop = Hop(creds: Option<Creds>, dst: Address, h: S.Hooks)

  function HopPipeline(net: Inet, hop: Hop): Option<bytes> {
    C.Pipeline(net, hop.creds, CONNECT as int, hop.dst)
  }

  predicate Encodable(net: Inet, hops: seq<Hop>) {
    forall i :: 0 <= i < |hops| ==> HopPipeline(net, hops[i]).Some?
  }

  // The whole nested chain in one send.
  function Blob(net: Inet, hops: seq<Hop>, payload: bytes): bytes
    requires Encodable(net, hops)
  {
    if hops == [] then payload else HopPipeline(net, hops[0]).value + Blob(net, hops[1..], payload)
  }

  // The same blob hop by hop from the front, as it is built.
  function Front(net: Inet, hops: seq<Hop>): bytes
    requires Encodable(net, hops)
  {
    if hops == [] then [] else Front(net, hops[..|hops| - 1]) + HopPipeline(net, hops[|hops| - 1]).value
  }

  lemma {:induction false} FrontIsBlob(net: Inet, hops: seq<Hop>, payload: bytes)
    requires Encodable(net, hops)
    ensures Front(net, hops) + payload == Blob(net, hops, payload)
  {
    hide HopPipeline;
    if hops == [] {
      assert [] + payload == payload;
    } else {
      var init, last := hops[..|hops| - 1], HopPipeline(net, hops[|hops| - 1]).value;
      FrontIsBlob(net, init, last + payload);
      BlobSnoc(net, init, hops[|hops| - 1], payload);
      assert init + [hops[|hops| - 1]] == hops;
      assert Front(net, init) + last + payload == Front(net, init) + (last + payload);
    }
  }

  lemma {:induction false} BlobSnoc(net: Inet, hops: seq<Hop>, hop: Hop, payload: bytes)
    requires Encodable(net, hops) && HopPipeline(net, hop).Some?
    ensures Encodable(net, hops + [hop])
    ensures Blob(net, hops + [hop], payload) == Blob(net, hops, HopPipeline(net, hop).value + payload)
  {
    hide HopPipeline;
    if hops == [] {
      assert hops + [hop] == [hop] && [hop][1..] == [];
    } else {
      BlobSnoc(net, hops[1..], hop, payload);
      assert (hops + [hop])[1..] == hops[1..] + [hop];
    }
  }

  // `greet_blob` and the request behind it.
  method AppendHop(net: Inet, blob: CodecImpl.ByteVector, hop: Hop) returns (ok: bool)
    modifies blob
    ensures ok <==> HopPipeline(net, hop).Some?
    ensures ok ==> blob.data == old(blob.data) + HopPipeline(net, hop).value
  {
    hide Lawful, Message, UserpassAuth;
    var greeting := CodecImpl.WriteGreeting([C.Method(hop.creds)]);
    blob.Append(greeting.value);
    assert greeting.value == [VER, 1, C.Method(hop.creds)];
    if hop.creds.Some? {
      var auth := CodecImpl.WriteUserpass(hop.creds.value);
      if auth.None? {
        return false;
      }
      blob.Append(auth.value);
    }
    var req := CodecImpl.WriteMessage(net, CONNECT as int, hop.dst);
    if req.None? {
      return false;
    }
    blob.Append(req.value);
    ok := true;
  }

  // The blob of `case_optimistic_chain`.
  method BuildBlob(net: Inet, hops: seq<Hop>, payload: bytes) returns (r: Option<bytes>)
    ensures r.Some? <==> Encodable(net, hops)
    ensures r.Some? ==> r.value == Blob(net, hops, payload)
  {
    hide HopPipeline;
    var blob := new CodecImpl.ByteVector();
    for i := 0 to |hops|
      invariant Encodable(net, hops[..i])
      invariant blob.data == Front(net, hops[..i])
    {
      var ok := AppendHop(net, blob, hops[i]);
      if !ok {
        return None;
      }
      assert hops[..i + 1][..i] == hops[..i];
    }
    assert hops[..|hops|] == hops;
    FrontIsBlob(net, hops, payload);
    blob.Append(payload);
    r := Some(blob.data);
  }

  // ---- the sessions of the chain ---------------------------------------------

  // A run of each hop's session, in any chunking and interleaving: the first is given
  // the input, each next one what the session before it left in its buffer.
  ghost predicate Chained(net: Inet, hops: seq<Hop>, runs: seq<seq<S.Op>>, input: bytes) {
    if hops == [] then runs == []
    else
      && runs != []
      && S.Arrived(runs[0]) == input
      && S.Settled(net, HopRun(net, hops[0], runs[0]))
      && Chained(net, hops[1..], runs[1..], HopRun(net, hops[0], runs[0]).s.buf)
  }

  function HopRun(net: Inet, hop: Hop, ops: seq<S.Op>): S.Config {
    S.Hooked(net, hop.creds.Some?, hop.h, ops)
  }

  predicate Accepted(hops: seq<Hop>) {
    forall i :: 0 <= i < |hops| ==> !Denied(hops[i].creds, hops[i].h)
  }

  // Each session takes exactly its own hop off the front: its trace is that of its own
  // pipeline alone, asking for its own target, and the bytes left after the last are
  // exactly the payload.
  lemma {:induction false} Peeled(net: Inet, hops: seq<Hop>, runs: seq<seq<S.Op>>, payload: bytes, i: nat)
    requires Encodable(net, hops) && Accepted(hops)
    requires Chained(net, hops, runs, Blob(net, hops, payload))
    requires i < |hops|
    ensures |runs| == |hops|
    ensures var k := HopRun(net, hops[i], runs[i]);
            && k.trace == Expected(net, hops[i].creds, CONNECT as int, hops[i].dst, hops[i].h)
            && Connect(CONNECT, PeerAddress(net, hops[i].dst)) in k.trace
            && k.s.buf == Blob(net, hops[i + 1..], payload)
            && (i == |hops| - 1 ==> k.s.buf == payload)
    decreases i
  {
    hide S.Hooked, S.Spec, S.Settled, Expected, C.Pipeline, Denied, Message;
    var rest := Blob(net, hops[1..], payload);
    FirstPeeled(net, hops[0], runs[0], rest);
    if i == 0 {
      RunsMatch(net, hops, runs, Blob(net, hops, payload));
    } else {
      Peeled(net, hops[1..], runs[1..], payload, i - 1);
      assert hops[1..][i - 1] == hops[i] && runs[1..][i - 1] == runs[i];
      assert hops[1..][i - 1 + 1..] == hops[i + 1..];
    }
  }

  predicate Settles(net: Inet, hop: Hop, input: bytes, ops: seq<S.Op>) {
    S.Arrived(ops) == input && S.Settled(net, HopRun(net, hop, ops))
  }

  lemma HopRuns(net: Inet, hop: Hop, input: bytes)
    ensures exists ops :: Settles(net, hop, input, ops)
  {
    hide S.Hooked, S.Settled, L.MoveAll, S.Arrived, Sends;
    var p := L.Policy(net, hop.creds.Some?, hop.creds, hop.h);
    L.FreshBalanced(p, input);
    L.RestReachable(p, input, [], L.Fresh(input));
    var steps :| L.Settling(p, L.Fresh(input), steps);
    L.MovesBalanced(p, input, [], L.Fresh(input), steps);
    var ops := L.MoveAll(p, L.Fresh(input), steps).ops;
    assert S.Arrived(ops) + [] == S.Arrived(ops);
    assert Settles(net, hop, input, ops);
  }

  // Every chain can be run, whatever the first session is given.
  lemma {:induction false} ChainRuns(net: Inet, hops: seq<Hop>, input: bytes)
    ensures exists runs :: Chained(net, hops, runs, input)
  {
    hide S.Hooked, S.Settled, S.Arrived;
    if hops == [] {
      assert Chained(net, hops, [], input);
    } else {
      HopRuns(net, hops[0], input);
      var ops :| Settles(net, hops[0], input, ops);
      ChainRuns(net, hops[1..], HopRun(net, hops[0], ops).s.buf);
      var rest :| Chained(net, hops[1..], rest, HopRun(net, hops[0], ops).s.buf);
      assert ([ops] + rest)[1..] == rest;
      assert Chained(net, hops, [ops] + rest, input);
    }
  }

  lemma {:induction false} RunsMatch(net: Inet, hops: seq<Hop>, runs: seq<seq<S.Op>>, input: bytes)
    requires Chained(net, hops, runs, input)
    ensures |runs| == |hops|
  {
    hide HopRun, S.Settled, S.Arrived;
    if hops != [] {
      RunsMatch(net, hops[1..], runs[1..], HopRun(net, hops[0], runs[0]).s.buf);
    }
  }

  lemma FirstPeeled(net: Inet, hop: Hop, ops: seq<S.Op>, rest: bytes)
    requires HopPipeline(net, hop).Some? && !Denied(hop.creds, hop.h)
    requires S.Arrived(ops) == HopPipeline(net, hop).value + rest
    requires S.Settled(net, HopRun(net, hop, ops))
    ensures var k := HopRun(net, hop, ops);
            && k.trace == Expected(net, hop.creds, CONNECT as int, hop.dst, hop.h)
            && Connect(CONNECT, PeerAddress(net, hop.dst)) in k.trace
            && k.s.buf == rest
  {
    hide S.Hooked, S.Spec, S.Settled, C.Pipeline, Denied, Message, Opening;
    PipelineStory(net, hop.creds, CONNECT as int, hop.dst, hop.h, rest);
    PipelineParts(net, hop.creds, CONNECT as int, hop.dst, rest);
    S.Refinement(net, hop.creds.Some?, hop.h, ops, []);
    var es := RequestEvents(net, hop.creds, CONNECT as int, hop.dst, hop.h);
    assert es[0] == Connect(CONNECT, PeerAddress(net, hop.dst));
  }

  // ---- reading the answers back ----------------------------------------------

  // One hop's answers at the front of a stream: the REP of its reply and the bytes
  // behind it. None: the answers stop short, refuse the credentials or are malformed.
  function HopAnswers(net: Inet, b: bytes): Option<(byte, bytes)> {
    if |b| < 2 then None
    else if b[0] == VER && b[1] == USERPASS then
      if |b| < 4 || b[2] != AUTH_VER || b[3] != 0 then None else ReplyAnswer(net, b[2..][2..])
    else ReplyAnswer(net, b[2..])
  }

  function ReplyAnswer(net: Inet, b: bytes): Option<(byte, bytes)> {
    match C.ReplySpec(net, b)
    case Reading(Done(reply), rest) => Some((reply.rep, rest))
    case _ => None
  }

  // How many hops in a row answer with success, at most `depth`, and what is left then.
  function Reached(net: Inet, depth: nat, b: bytes): (nat, bytes) {
    if depth == 0 then (0, b)
    else
      match HopAnswers(net, b)
      case None => (0, b)
      case Some((rep, rest)) =>
        if rep != 0 then (0, rest)
        else
          var (n, end) := Reached(net, depth - 1, rest);
          (n + 1, end)
  }

  // The reader of `case_optimistic_chain`: it counts exactly the hops that answer with
  // success, unless a receive raises first, and reads nothing behind the last one. Every
  // receive has the timeout set on the socket beforehand.
  method ReadChain(sock: Socket, net: Inet, depth: nat) returns (reached: nat, raised: bool)
    requires sock.timeout >= 0.0
    modifies sock`incoming, sock`now, sock`timeout, sock`received, sock`stops
    ensures reached <= Reached(net, depth, old(sock.incoming)).0 <= depth
    ensures !raised ==> reached == Reached(net, depth, old(sock.incoming)).0
    ensures reached == depth ==> sock.incoming == Reached(net, depth, old(sock.incoming)).1
  {
    hide C.ReplySpec, HopAnswers, Lawful;
    reached, raised := 0, false;
    ghost var stream := sock.incoming;
    ReachedMost(net, depth, stream);
    while reached < depth
      invariant reached <= depth && sock.timeout >= 0.0
      invariant Reached(net, depth, stream).0 == reached + Reached(net, depth - reached, sock.incoming).0 <= depth
      invariant Reached(net, depth, stream).1 == Reached(net, depth - reached, sock.incoming).1
    {
      var rep, slow := ReadHop(sock, net);
      if slow {
        return reached, true;
      }
      if rep != Some(0) {
        return;
      }
      reached := reached + 1;
    }
  }

  lemma {:induction false} ReachedMost(net: Inet, depth: nat, b: bytes)
    ensures Reached(net, depth, b).0 <= depth
  {
    hide HopAnswers;
    if depth > 0 && HopAnswers(net, b).Some? {
      ReachedMost(net, depth - 1, HopAnswers(net, b).value.1);
    }
  }

  method ReadHop(sock: Socket, net: Inet) returns (rep: Option<byte>, raised: bool)
    requires sock.timeout >= 0.0
    modifies sock`incoming, sock`now, sock`timeout, sock`received, sock`stops
    ensures sock.timeout == old(sock.timeout)
    ensures !raised ==>
              match HopAnswers(net, old(sock.incoming))
              case None => rep == None
              case Some((r, rest)) => rep == Some(r) && sock.incoming == rest
  {
    hide C.ReplySpec, Lawful;
    ghost var stream := sock.incoming;
    var answer := RecvExact(sock, 2, None);
    if !answer.Exactly? {
      return None, answer.Disturbed?;
    }
    assert stream[0] == answer.data[0] && stream[1] == answer.data[1] && stream[2..] == sock.incoming;
    if ParseMethodSelection(answer.data) == Some(USERPASS) {
      var status := RecvExact(sock, 2, None);
      if !status.Exactly? {
        return None, status.Disturbed?;
      }
      assert stream[2] == status.data[0] && stream[3] == status.data[1] && stream[2..][2..] == sock.incoming;
      if ParseAuthReply(status.data) != Some(0) {
        return None, false;
      }
    }
    var r := RecvReply(sock, net, None);
    match r {
      case Got(reply) => return Some(reply.rep), false;
      case Fault(_) => return None, false;
      case Cut => return None, false;
      case Stopped => return None, true;
    }
  }

  // A hop whose hooks let the connection through.
  predicate Succeeds(net: Inet, hop: Hop) {
    && !TakenOver(net, hop.creds, CONNECT as int, hop.dst, hop.h)
    && Relayed(Expected(net, hop.creds, CONNECT as int, hop.dst, hop.h))
    && ExpectedVerdict(net, hop.creds, CONNECT as int, hop.dst, hop.h).Done?
    && ExpectedVerdict(net, hop.creds, CONNECT as int, hop.dst, hop.h).reply.rep == 0
  }

  // The answers of a whole chain: each hop's transcript, then what the last tunnel
  // carries, all through one connection.
  function Transcripts(net: Inet, hops: seq<Hop>, tail: bytes): bytes {
    if hops == [] then tail
    else
      Sends(Expected(net, hops[0].creds, CONNECT as int, hops[0].dst, hops[0].h))
      + Transcripts(net, hops[1..], tail)
  }

  // On the answers of a chain in which every hop succeeds, the reader reaches the full
  // depth and leaves the tail unread.
  lemma {:induction false} ChainReached(net: Inet, hops: seq<Hop>, tail: bytes)
    requires forall i :: 0 <= i < |hops| ==> Succeeds(net, hops[i])
    ensures Reached(net, |hops|, Transcripts(net, hops, tail)) == (|hops|, tail)
  {
    hide Succeeds, HopAnswers, Expected, Sends;
    if hops != [] {
      ChainReached(net, hops[1..], tail);
      HopHeard(net, hops[0], Transcripts(net, hops[1..], tail));
    }
  }

  lemma HopHeard(net: Inet, hop: Hop, rest: bytes)
    requires Succeeds(net, hop)
    ensures HopAnswers(net, Sends(Expected(net, hop.creds, CONNECT as int, hop.dst, hop.h)) + rest) == Some((0, rest))
  {
    hide Expected, Sends, ExpectedVerdict, TakenOver, C.ReplySpec, Denied;
    var b := Sends(Expected(net, hop.creds, CONNECT as int, hop.dst, hop.h)) + rest;
    NotDenied(net, hop);
    TranscriptReading(net, hop.creds, CONNECT as int, hop.dst, hop.h, rest);
  }

  lemma NotDenied(net: Inet, hop: Hop)
    requires Succeeds(net, hop)
    ensures !Denied(hop.creds, hop.h)
  {
    hide Denied, Expected, FinalFlags, AnswerVerdict;
  }

  // ---- chains that break -----------------------------------------------------

  // The hops in front count whatever follows them.
  lemma {:induction false} ReachedBehind(net: Inet, hops: seq<Hop>, depth: nat, rest: bytes)
    requires forall i :: 0 <= i < |hops| ==> Succeeds(net, hops[i])
    requires |hops| <= depth
    ensures Reached(net, depth, Transcripts(net, hops, rest)).0
            == |hops| + Reached(net, depth - |hops|, rest).0
  {
    hide Succeeds, HopAnswers, Expected, Sends;
    if hops != [] {
      ReachedBehind(net, hops[1..], depth - 1, rest);
      HopHeard(net, hops[0], Transcripts(net, hops[1..], rest));
    }
  }

  // The hop has given all its answers and let nothing through: its proxy rejected the
  // credentials, or replied with a code that is not zero.
  predicate Breaks(net: Inet, hop: Hop) {
    && !TakenOver(net, hop.creds, CONNECT as int, hop.dst, hop.h)
    && (|| Denied(hop.creds, hop.h)
        || (var verdict := ExpectedVerdict(net, hop.creds, CONNECT as int, hop.dst, hop.h);
            verdict.Done? && verdict.reply.rep != 0))
  }

  // What the proxy of the hop answers.
  function HopSends(net: Inet, hop: Hop): bytes {
    Sends(Expected(net, hop.creds, CONNECT as int, hop.dst, hop.h))
  }

  // The reader counts the hops in front of the one that breaks and stops there, whatever
  // else the stream holds.
  lemma BrokenChain(net: Inet, hops: seq<Hop>, broken: Hop, depth: nat, rest: bytes)
    requires forall i :: 0 <= i < |hops| ==> Succeeds(net, hops[i])
    requires Breaks(net, broken) && |hops| < depth
    ensures Reached(net, depth, Transcripts(net, hops, HopSends(net, broken) + rest)).0 == |hops|
  {
    hide HopAnswers, Breaks, Succeeds, HopSends, Transcripts;
    ReachedBehind(net, hops, depth, HopSends(net, broken) + rest);
    BrokenHop(net, broken, rest);
  }

  lemma BrokenHop(net: Inet, hop: Hop, rest: bytes)
    requires Breaks(net, hop)
    ensures match HopAnswers(net, HopSends(net, hop) + rest) case None => true case Some((rep, _)) => rep != 0
  {
    hide Expected, Sends, ExpectedVerdict, TakenOver, C.ReplySpec, RequestEvents, Opening;
    var b := HopSends(net, hop) + rest;
    if Denied(hop.creds, hop.h) {
      DeniedSends(net, hop);
      assert b[0] == 5 && b[1] == 2 && b[2] == 1 && b[3] == 1;
    } else {
      hide Denied;
      TranscriptReading(net, hop.creds, CONNECT as int, hop.dst, hop.h, []);
      assert HopSends(net, hop) + [] == HopSends(net, hop);
      RepliedHop(net, hop, rest);
    }
  }

  lemma DeniedSends(net: Inet, hop: Hop)
    requires Denied(hop.creds, hop.h)
    ensures HopSends(net, hop) == [5, 2, 1, 1]
  {
    hide Sends, AuthFlags, RequestEvents;
    OpeningSends(hop.creds, hop.h);
  }

  // A whole reply is read as such, whatever follows it.
  lemma RepliedHop(net: Inet, hop: Hop, rest: bytes)
    requires C.Spec(net, hop.creds.Some?, HopSends(net, hop)).verdict.Done?
    ensures var reply := C.Spec(net, hop.creds.Some?, HopSends(net, hop)).verdict.reply;
            HopAnswers(net, HopSends(net, hop) + rest).Some?
            && HopAnswers(net, HopSends(net, hop) + rest).value.0 == reply.rep
  {
    hide HopSends, C.ReplySpec;
    var b := HopSends(net, hop);
    C.SpecStable(net, hop.creds.Some?, b, rest);
  }

  // Answers that stop short of a hop's last byte do not count it.
  lemma CutChain(net: Inet, hops: seq<Hop>, cut: Hop, n: nat, depth: nat)
    requires forall i :: 0 <= i < |hops| ==> Succeeds(net, hops[i])
    requires Succeeds(net, cut) && n < |HopSends(net, cut)| && |hops| < depth
    ensures Reached(net, depth, Transcripts(net, hops, HopSends(net, cut)[..n])).0 == |hops|
  {
    hide HopAnswers, Succeeds, HopSends, Transcripts;
    ReachedBehind(net, hops, depth, HopSends(net, cut)[..n]);
    CutHop(net, cut, n);
  }

  lemma CutHop(net: Inet, hop: Hop, n: nat)
    requires Succeeds(net, hop) && n < |HopSends(net, hop)|
    ensures HopAnswers(net, HopSends(net, hop)[..n]) == None
  {
    hide HopAnswers, Succeeds, Sends, Expected;
    var b := HopSends(net, hop);
    var short, more := b[..n], b[n..];
    assert short + more == b;
    HopHeard(net, hop, []);
    assert b + [] == b;
    if HopAnswers(net, short).Some? {
      AnswersStable(net, short, more);
    }
  }

  // What has been read of a hop stays read, and later bytes are left behind it.
  lemma AnswersStable(net: Inet, b: bytes, more: bytes)
    requires HopAnswers(net, b).Some?
    ensures var (rep, rest) := HopAnswers(net, b).value;
            HopAnswers(net, b + more) == Some((rep, rest + more))
  {
    hide C.ReplySpec;
    var all := b + more;
    assert all[0] == b[0] && all[1] == b[1];
    TakeThenMore(b, more, 2);
    C.ReplySpecStable(net, b[2..], more);
    if b[0] == VER && b[1] == USERPASS {
      assert all[2] == b[2] && all[3] == b[3];
      TakeThenMore(b[2..], more, 2);
      C.ReplySpecStable(net, b[2..][2..], more);
    }
  }

  // What the reader makes of a reply.
  function Replied(net: Inet, b: bytes): Option<(byte, bytes)> {
    match C.ReplySpec(net, b)
    case Reading(Done(reply), end) => Some((reply.rep, end))
    case _ => None
  }

  // Behind 5, 2 only 1, 0 lets the reader go on. Any other first answer, a refusal of all
  // methods among them, is passed over: what follows is taken for the reply.
  lemma HopRead(net: Inet, b: bytes)
    ensures HopAnswers(net, b)
            == if |b| < 2 then None
               else if b[0] == 5 && b[1] == 2 then
                 if |b| >= 4 && b[2] == 1 && b[3] == 0 then Replied(net, b[4..]) else None
               else Replied(net, b[2..])
  {
    hide C.ReplySpec;
    assert |b| >= 4 ==> b[2..][2..] == b[4..];
  }

  // A proxy whose dial was refused.
  lemma RefusedNotReached(net: Inet)
    ensures Reached(net, 1, [5, 0, 5, 5, 0, 1, 0, 0, 0, 0, 0, 0]).0 == 0
  {
    hide C.ReplySpec, Lawful;
    var reply: bytes := [5, 5, 0, 1, 0, 0, 0, 0, 0, 0];
    var b: bytes := [5, 0, 5, 5, 0, 1, 0, 0, 0, 0, 0, 0];
    HopRead(net, b);
    assert b[2..] == reply;
    ReplyRead(net, reply);
  }

  lemma ReplyRead(net: Inet, b: bytes)
    requires |b| == 10 && b[0] == 5 && b[3] == 1
    ensures C.ReplySpec(net, b).verdict.Done? && C.ReplySpec(net, b).verdict.reply.rep == b[1]
  {
    hide Lawful, AddressAt;
    ParseMessageExtent(net, b);
  }
}
