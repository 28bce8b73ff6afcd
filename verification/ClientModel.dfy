// The optimistic client: what it sends, what a whole answer stream means to it, and
// the incremental parser as a transition system on values.
module ClientModel {
  import opened Wire
  import opened Codec
  import opened CodecLaws

  // The Socks5Error cases of the handshake.
  datatype ClientError =
    | MalformedMethod | NoAcceptableMethods | UnexpectedMethod(chosen: byte)
    | MalformedAuth | AuthDenied(status: byte)
    | UnknownAtyp(atyp: byte) | MalformedReply

  datatype Verdict = Waiting | Failed(error: ClientError) | Done(reply: Reply)

  // ---- what the client sends -------------------------------------------------

  function Method(creds: Option<Creds>): byte {
    if creds.Some? then USERPASS else NO_AUTH
  }

  // `optimistic_pipeline`; None is a builder's ValueError.
  function Pipeline(net: Inet, creds: Option<Creds>, cmd: int, dst: Address): Option<bytes> {
    var greeting := [VER, 1, Method(creds)];
    match Message(net, cmd, dst)
    case None => None
    case Some(req) =>
      if creds.None? then Some(greeting + req)
      else
        match UserpassAuth(creds.value)
        case None => None
        case Some(auth) => Some(greeting + auth + req)
  }

  // ---- the batch specification -----------------------------------------------

  // The verdict a stream leads to, and the bytes of it that are never consumed.
  datatype Reading = Reading(verdict: Verdict, rest: bytes)

  function MethodSpec(net: Inet, auth: bool, b: bytes): Reading {
    if |b| < 2 then Reading(Waiting, b)
    else if b[0] != VER then Reading(Failed(MalformedMethod), b)
    else if b[1] == (if auth then USERPASS else NO_AUTH) then
      if auth then AuthSpec(net, b[2..]) else ReplySpec(net, b[2..])
    else if b[1] == NO_ACCEPTABLE then Reading(Failed(NoAcceptableMethods), b)
    else Reading(Failed(UnexpectedMethod(b[1])), b)
  }

  function AuthSpec(net: Inet, b: bytes): Reading {
    if |b| < 2 then Reading(Waiting, b)
    else if b[0] != AUTH_VER then Reading(Failed(MalformedAuth), b)
    else if b[1] != 0 then Reading(Failed(AuthDenied(b[1])), b)
    else ReplySpec(net, b[2..])
  }

  function ReplySpec(net: Inet, b: bytes): Reading {
    if |b| >= 4 && !KnownAtyp(b[3]) then Reading(Failed(UnknownAtyp(b[3])), b)
    else if MessageSize(b).None? || |b| < MessageSize(b).value then Reading(Waiting, b)
    else
      match ParseMessage(net, b)
      case None => Reading(Failed(MalformedReply), b)
      case Some((rep, bound)) => Reading(Done(Reply(rep, bound)), b[MessageSize(b).value..])
  }

  function Spec(net: Inet, auth: bool, b: bytes): Reading {
    MethodSpec(net, auth, b)
  }

  // ---- the incremental parser ------------------------------------------------

  datatype Phase = AwaitMethod | AwaitAuth | AwaitReply | Complete(reply: Reply)

  datatype Cli = Cli(auth: bool, buf: bytes, phase: Phase)

  // The loop of `feed`: parse as far as the buffer allows.
  function Pump(net: Inet, c: Cli): (Cli, Verdict)
    decreases match c.phase case AwaitMethod => 3 case AwaitAuth => 2 case AwaitReply => 1 case Complete(_) => 0
  {
    match c.phase
    case AwaitMethod =>
      if |c.buf| < 2 then (c, Waiting)
      else
        (match ParseMethodSelection(c.buf[..2])
         case None => (c, Failed(MalformedMethod))
         case Some(m) =>
           if m != (if c.auth then USERPASS else NO_AUTH) then
             (c, Failed(if m == NO_ACCEPTABLE then NoAcceptableMethods else UnexpectedMethod(m)))
           else
             Pump(net, c.(buf := c.buf[2..], phase := if c.auth then AwaitAuth else AwaitReply)))
    case AwaitAuth =>
      if |c.buf| < 2 then (c, Waiting)
      else
        (match ParseAuthReply(c.buf[..2])
         case None => (c, Failed(MalformedAuth))
         case Some(status) =>
           if status != 0 then (c, Failed(AuthDenied(status)))
           else Pump(net, c.(buf := c.buf[2..], phase := AwaitReply)))
    case AwaitReply =>
      if |c.buf| >= 4 && !KnownAtyp(c.buf[3]) then (c, Failed(UnknownAtyp(c.buf[3])))
      else
        (match MessageSize(c.buf)
         case None => (c, Waiting)
         case Some(n) =>
           if |c.buf| < n then (c, Waiting)
           else
             match ParseMessage(net, c.buf[..n])
             case None => (c, Failed(MalformedReply))
             case Some((rep, bound)) =>
               (c.(buf := c.buf[n..], phase := Complete(Reply(rep, bound))), Done(Reply(rep, bound))))
    case Complete(reply) => (c, Done(reply))
  }

  function Feed(net: Inet, c: Cli, data: bytes): (Cli, Verdict) {
    Pump(net, if c.phase.Complete? then c else c.(buf := c.buf + data))
  }

  // A client fed chunk after chunk: its state, the verdict of the last feed, and the
  // bytes it accepted, which are all those fed up to completion.
  datatype Run = Run(c: Cli, verdict: Verdict, taken: bytes)

  function Fed(net: Inet, auth: bool, chunks: seq<bytes>): Run {
    if chunks == [] then Run(Cli(auth, [], AwaitMethod), Waiting, [])
    else
      var r := Fed(net, auth, chunks[..|chunks| - 1]);
      var data := chunks[|chunks| - 1];
      var (c, v) := Feed(net, r.c, data);
      Run(c, v, if r.c.phase.Complete? then r.taken else r.taken + data)
  }

  lemma FedSnoc(net: Inet, auth: bool, chunks: seq<bytes>, data: bytes)
    ensures var r := Fed(net, auth, chunks);
            var (c, v) := Feed(net, r.c, data);
            Fed(net, auth, chunks + [data])
            == Run(c, v, if r.c.phase.Complete? then r.taken else r.taken + data)
  {
    assert (chunks + [data])[..|chunks|] == chunks;
  }

  // ---- refinement ------------------------------------------------------------

  // What the stream still means from state c when `more` follows its buffer.
  function From(net: Inet, c: Cli, more: bytes): Reading {
    match c.phase
    case AwaitMethod => MethodSpec(net, c.auth, c.buf + more)
    case AwaitAuth => AuthSpec(net, c.buf + more)
    case AwaitReply => ReplySpec(net, c.buf + more)
    case Complete(reply) => Reading(Done(reply), c.buf + more)
  }

  // A reply that is complete, and one that is broken, stay so as bytes follow.
  lemma ReplySpecStable(net: Inet, b: bytes, more: bytes)
    ensures ReplySpec(net, b).verdict != Waiting ==>
              ReplySpec(net, b + more) == Reading(ReplySpec(net, b).verdict, ReplySpec(net, b).rest + more)
  {
    hide Lawful, AddressSize;
    var all := b + more;
    assert |b| >= 4 ==> all[3] == b[3];
    if MessageSize(b).Some? && MessageSize(b).value <= |b| {
      var n := MessageSize(b).value;
      MessageSizeStable(b, more);
      TakeThenMore(b, more, n);
      ParseMessageExtent(net, b);
      ParseMessageExtent(net, all);
    }
  }

  lemma PumpReply(net: Inet, c: Cli, more: bytes)
    requires c.phase == AwaitReply
    ensures PumpKeeps(net, c, more)
  {
    hide Lawful, MessageSize, ParseMessage;
    ReplySpecStable(net, c.buf, more);
    assert c.buf + [] == c.buf;
    if MessageSize(c.buf).Some? && MessageSize(c.buf).value <= |c.buf| {
      ParseMessageExtent(net, c.buf);
      TakeThenMore(c.buf, [], MessageSize(c.buf).value);
    }
  }

  ghost predicate PumpKeeps(net: Inet, c: Cli, more: bytes) {
    var (d, v) := Pump(net, c);
    && From(net, d, more) == From(net, c, more)
    && From(net, c, []) == Reading(v, d.buf)
    && d.auth == c.auth
    && (v.Done? <==> d.phase.Complete?)
  }

  // Pumping changes neither what is to come nor the verdict on what is there.
  lemma {:induction false} PumpPreserves(net: Inet, c: Cli, more: bytes)
    ensures PumpKeeps(net, c, more)
    decreases match c.phase case AwaitMethod => 3 case AwaitAuth => 2 case AwaitReply => 1 case Complete(_) => 0
  {
    hide ReplySpec, Lawful;
    assert c.buf + [] == c.buf;
    match c.phase
    case AwaitReply => PumpReply(net, c, more);
    case Complete(_) =>
    case AwaitMethod =>
      if |c.buf| >= 2 {
        TakeThenMore(c.buf, more, 2);
        TakeThenMore(c.buf, [], 2);
        PumpPreserves(net, c.(buf := c.buf[2..], phase := if c.auth then AwaitAuth else AwaitReply), more);
      }
    case AwaitAuth =>
      if |c.buf| >= 2 {
        TakeThenMore(c.buf, more, 2);
        TakeThenMore(c.buf, [], 2);
        PumpPreserves(net, c.(buf := c.buf[2..], phase := AwaitReply), more);
      }
  }

  lemma {:induction false} FedInvariant(net: Inet, auth: bool, chunks: seq<bytes>, more: bytes)
    ensures var r := Fed(net, auth, chunks);
            && r.c.auth == auth
            && From(net, r.c, more) == Spec(net, auth, r.taken + more)
            && From(net, r.c, []) == Reading(r.verdict, r.c.buf)
            && (r.verdict.Done? <==> r.c.phase.Complete?)
            && r.taken <= Concat(chunks)
            && (!r.c.phase.Complete? ==> r.taken == Concat(chunks))
  {
    hide Pump, ReplySpec, AuthSpec, MethodSpec, Lawful;
    if chunks == [] {
      assert [] + more == more;
      StartFrom(net, auth, more);
      StartFrom(net, auth, []);
    } else {
      var init, data := chunks[..|chunks| - 1], chunks[|chunks| - 1];
      var r := Fed(net, auth, init);
      FedInvariant(net, auth, init, if r.c.phase.Complete? then more else data + more);
      var c := if r.c.phase.Complete? then r.c else r.c.(buf := r.c.buf + data);
      PumpPreserves(net, c, more);
      PumpPreserves(net, c, []);
      assert r.taken + data + more == r.taken + (data + more);
      assert r.c.buf + data + more == r.c.buf + (data + more);
      if r.taken <= Concat(init) {
        assert r.taken <= Concat(init) + data;
      }
    }
  }

  lemma StartFrom(net: Inet, auth: bool, more: bytes)
    ensures From(net, Cli(auth, [], AwaitMethod), more) == MethodSpec(net, auth, more)
    ensures MethodSpec(net, auth, []) == Reading(Waiting, [])
  {
    assert [] + more == more;
  }

  // A verdict, once reached, is unchanged by any further bytes; they are surplus.
  lemma SpecStable(net: Inet, auth: bool, b: bytes, more: bytes)
    requires Spec(net, auth, b).verdict != Waiting
    ensures Spec(net, auth, b + more) == Reading(Spec(net, auth, b).verdict, Spec(net, auth, b).rest + more)
  {
    hide ReplySpec;
    var all := b + more;
    assert all[0] == b[0] && all[1] == b[1];
    TakeThenMore(b, more, 2);
    if !auth {
      ReplySpecStable(net, b[2..], more);
    } else if |b| >= 4 {
      assert all[2] == b[2] && all[3] == b[3];
      TakeThenMore(b[2..], more, 2);
      ReplySpecStable(net, b[2..][2..], more);
    }
  }

  // ---- main theorems ---------------------------------------------------------

  // However the answer stream is cut, the last feed gives the batch verdict on all
  // the bytes fed; the buffer holds exactly what the batch reading leaves of the
  // bytes accepted, so at completion `leftover` is the stream behind the reply.
  lemma ChunkingIndependence(net: Inet, auth: bool, chunks: seq<bytes>)
    ensures var r := Fed(net, auth, chunks);
            && r.verdict == Spec(net, auth, Concat(chunks)).verdict
            && r.taken <= Concat(chunks)
            && Spec(net, auth, r.taken) == Reading(r.verdict, r.c.buf)
            && (!r.verdict.Done? ==> r.taken == Concat(chunks))
  {
    hide Fed, Spec, From;
    var r := Fed(net, auth, chunks);
    FedInvariant(net, auth, chunks, []);
    assert r.taken + [] == r.taken;
    if r.verdict.Done? {
      SpecStable(net, auth, r.taken, Concat(chunks)[|r.taken|..]);
      assert r.taken + Concat(chunks)[|r.taken|..] == Concat(chunks);
    }
  }

  lemma CompleteWhenDone(net: Inet, auth: bool, chunks: seq<bytes>)
    ensures var r := Fed(net, auth, chunks);
            (r.verdict.Done? <==> r.c.phase.Complete?) && (r.verdict == Waiting ==> !r.c.phase.Complete?)
  {
    hide Fed, From, Spec;
    FedInvariant(net, auth, chunks, []);
  }

  // While the client waits it has been given at most 265 bytes, 263 without
  // authentication; and some answer keeps it waiting that long.
  lemma ClientWaitBound(net: Inet, auth: bool, b: bytes)
    ensures Spec(net, auth, b).verdict == Waiting ==> |b| <= if auth then 265 else 263
  {
    hide Lawful, ParseMessage;
    if |b| >= 2 {
      ReplyWaits(net, b[2..]);
      if |b| >= 4 {
        ReplyWaits(net, b[2..][2..]);
      }
    }
  }

  lemma ReplyWaits(net: Inet, b: bytes)
    ensures ReplySpec(net, b).verdict == Waiting ==> |b| <= 261
  {
    hide Lawful, ParseMessage;
  }

  lemma ClientWaitBoundReached(net: Inet, auth: bool)
    ensures exists b :: Spec(net, auth, b).verdict == Waiting && |b| == if auth then 265 else 263
  {
    hide ReplySpec, LONG_REPLY;
    LongReplyWaits(net);
    var tail: bytes := if auth then [AUTH_VER, 0] + LONG_REPLY else LONG_REPLY;
    var b: bytes := [VER, if auth then USERPASS else NO_AUTH] + tail;
    assert b[2..] == tail;
    assert auth ==> tail[2..] == LONG_REPLY;
    assert Spec(net, auth, b).verdict == Waiting;
  }

  // A domain reply of 255 bytes, one byte short.
  const LONG_REPLY: bytes := [VER, 0, 0, DOMAIN, 255] + seq(256, _ => 1)

  lemma LongReplyWaits(net: Inet)
    ensures ReplySpec(net, LONG_REPLY).verdict == Waiting && |LONG_REPLY| == 261
  {
    hide Lawful, ParseMessage;
  }
}
