// What an optimistic pipeline leads to: the server's events, the bytes it leaves
// unread, and the client's verdict on the answers, as functions of the hook answers.
module Transcript {
  import opened Wire
  import opened Codec
  import opened CodecLaws
  import opened ServerModel
  import S = ServerSpec
  import C = ClientModel

  // ---- answers ---------------------------------------------------------------

  // Everything the server sends, in order.
  function Sends(es: seq<Event>): bytes {
    if es == [] then []
    else
      Sends(es[..|es| - 1]) +
      (match es[|es| - 1] case Send(data) => data case _ => [])
  }

  lemma SendsSnoc(es: seq<Event>, e: Event)
    ensures Sends(es + [e]) == Sends(es) + (if e.Send? then e.data else [])
  {
    assert (es + [e])[..|es|] == es;
  }

  lemma {:induction false} SendsAppend(es: seq<Event>, fs: seq<Event>)
    ensures Sends(es + fs) == Sends(es) + Sends(fs)
  {
    if fs == [] {
      assert es + fs == es;
    } else {
      var init := fs[..|fs| - 1];
      SendsAppend(es, init);
      assert es + fs == es + init + [fs[|fs| - 1]];
      SendsSnoc(es + init, fs[|fs| - 1]);
    }
  }

  lemma NoSends()
    ensures Sends([]) == []
  {
  }

  // What is sent first comes first.
  lemma SendsFirst(es: seq<Event>, data: bytes)
    requires es != [] && es[0] == Send(data)
    ensures data <= Sends(es)
  {
    hide Sends;
    NoSends();
    SendsSnoc([], es[0]);
    assert [] + [es[0]] == [es[0]];
    assert es == [es[0]] + es[1..];
    SendsAppend([es[0]], es[1..]);
  }

  // ---- the expected conversation ---------------------------------------------

  function PeerAddress(net: Inet, dst: Address): Address {
    Address(Normal(net, dst.host), dst.port)
  }

  // The flags when the request is about to be read.
  function AuthFlags(creds: Option<Creds>, h: S.Hooks): Flags {
    if creds.None? then INITIAL_FLAGS
    else DecideAll(INITIAL_FLAGS, h.authorize(INITIAL_FLAGS, creds.value))
  }

  // The flags once the connect hook and the driver have answered.
  function FinalFlags(net: Inet, creds: Option<Creds>, dst: Address, h: S.Hooks): Flags {
    var g := ForConnect(AuthFlags(creds, h), PeerAddress(net, dst));
    DecideAll(g, h.connect(g, CONNECT, PeerAddress(net, dst)))
  }

  function RequestEvents(net: Inet, creds: Option<Creds>, cmd: int, dst: Address, h: S.Hooks): seq<Event> {
    if cmd != CONNECT as int then Answer(net, CMD_NOT_SUPPORTED, ZERO_ADDRESS, Close(CommandNotSupported))
    else [Connect(CONNECT, PeerAddress(net, dst))] + S.ConnectVerdict(net, FinalFlags(net, creds, dst, h))
  }

  predicate Denied(creds: Option<Creds>, h: S.Hooks) {
    creds.Some? && AuthFlags(creds, h).rejected
  }

  function Opening(creds: Option<Creds>, h: S.Hooks): seq<Event> {
    if creds.None? then [Send([VER, NO_AUTH])]
    else if Denied(creds, h) then
      [Send([VER, USERPASS]), Authorize(creds.value), Send([AUTH_VER, 1]), Close(AuthRejected)]
    else [Send([VER, USERPASS]), Authorize(creds.value), Send([AUTH_VER, 0])]
  }

  // The server's whole trace on a pipeline, NeedData erased.
  function Expected(net: Inet, creds: Option<Creds>, cmd: int, dst: Address, h: S.Hooks): seq<Event> {
    if Denied(creds, h) then Opening(creds, h)
    else Opening(creds, h) + RequestEvents(net, creds, cmd, dst, h)
  }

  // The pipelined bytes no session consumes: what follows the request, or the request
  // too when authentication fails.
  function Surplus(net: Inet, creds: Option<Creds>, cmd: int, dst: Address, h: S.Hooks, early: bytes): bytes
    requires Message(net, cmd, dst).Some?
  {
    if Denied(creds, h) then Message(net, cmd, dst).value + early else early
  }

  lemma RequestStory(net: Inet, creds: Option<Creds>, cmd: int, dst: Address, h: S.Hooks, early: bytes)
    requires Message(net, cmd, dst).Some?
    ensures S.RequestSpec(net, AuthFlags(creds, h), Message(net, cmd, dst).value + early, h)
            == S.Story(RequestEvents(net, creds, cmd, dst, h), early)
  {
    hide Lawful, Message, MessageSize, ParseMessage, S.ConnectVerdict, Answer, AuthFlags;
    var m := Message(net, cmd, dst).value;
    MessageRoundTrip(net, cmd, dst, early);
    MessageBuilds(net, cmd, dst);
    S.SizeKnown(m + early);
    assert (m + early)[|m|..] == early;
  }

  // Whole pipelines, with any bytes glued behind, mean the expected conversation to a
  // server of the same auth policy.
  lemma PipelineStory(net: Inet, creds: Option<Creds>, cmd: int, dst: Address, h: S.Hooks, early: bytes)
    requires C.Pipeline(net, creds, cmd, dst).Some?
    ensures S.Spec(net, creds.Some?, C.Pipeline(net, creds, cmd, dst).value + early, h)
            == S.Story(Expected(net, creds, cmd, dst, h), Surplus(net, creds, cmd, dst, h, early))
  {
    hide S.Spec, Expected, Surplus, Message, UserpassAuth, Lawful;
    GreetedStory(net, creds, [C.Method(creds)], cmd, dst, h, early);
    PipelineParts(net, creds, cmd, dst, early);
  }

  lemma PipelineParts(net: Inet, creds: Option<Creds>, cmd: int, dst: Address, early: bytes)
    requires C.Pipeline(net, creds, cmd, dst).Some?
    ensures Message(net, cmd, dst).Some? && (creds.Some? ==> UserpassAuth(creds.value).Some?)
    ensures var auth := if creds.Some? then UserpassAuth(creds.value).value else [];
            C.Pipeline(net, creds, cmd, dst).value + early
            == ClientGreeting([C.Method(creds)]).value + (auth + (Message(net, cmd, dst).value + early))
  {
    hide Message, UserpassAuth, Lawful;
  }

  // The same holds of any greeting that offers the server's method: the staged
  // client's two methods make no difference.
  lemma GreetedStory(net: Inet, creds: Option<Creds>, methods: bytes, cmd: int, dst: Address, h: S.Hooks, early: bytes)
    requires Message(net, cmd, dst).Some? && (creds.Some? ==> UserpassAuth(creds.value).Some?)
    requires |methods| <= 255 && C.Method(creds) in methods
    ensures var req := Message(net, cmd, dst).value;
            var auth := if creds.Some? then UserpassAuth(creds.value).value else [];
            S.Spec(net, creds.Some?, ClientGreeting(methods).value + (auth + (req + early)), h)
            == S.Story(Expected(net, creds, cmd, dst, h), Surplus(net, creds, cmd, dst, h, early))
  {
    hide Lawful, Message, MessageSize, ParseMessage, ParseGreeting, ParseUserpass, UserpassSize, UserpassAuth;
    hide S.RequestSpec, S.ConnectVerdict, RequestEvents;
    var req := Message(net, cmd, dst).value;
    RequestStory(net, creds, cmd, dst, h, early);
    if creds.None? {
      assert [] + (req + early) == req + early;
      GreetingRoundTrip(methods, req + early);
    } else {
      var auth := UserpassAuth(creds.value).value;
      GreetingRoundTrip(methods, auth + (req + early));
      AuthStory(net, creds, cmd, dst, h, early);
      assert INITIAL_FLAGS.(rejected := false) == INITIAL_FLAGS;
    }
  }

  lemma AuthStory(net: Inet, creds: Option<Creds>, cmd: int, dst: Address, h: S.Hooks, early: bytes)
    requires Message(net, cmd, dst).Some? && creds.Some? && UserpassAuth(creds.value).Some?
    ensures S.AuthSpec(net, INITIAL_FLAGS, UserpassAuth(creds.value).value + (Message(net, cmd, dst).value + early), h)
            == S.Story(Expected(net, creds, cmd, dst, h)[1..], Surplus(net, creds, cmd, dst, h, early))
  {
    hide Lawful, Message, MessageSize, ParseMessage, ParseUserpass, UserpassSize, UserpassAuth;
    hide S.RequestSpec, S.ConnectVerdict, RequestEvents;
    var req := Message(net, cmd, dst).value;
    var auth := UserpassAuth(creds.value).value;
    RequestStory(net, creds, cmd, dst, h, early);
    UserpassRoundTrip(creds.value, req + early);
    assert (auth + (req + early))[|auth|..] == req + early;
    assert INITIAL_FLAGS.(rejected := false) == INITIAL_FLAGS;
    if !Denied(creds, h) {
      assert Expected(net, creds, cmd, dst, h)[1..]
          == [Authorize(creds.value)] + ([Send([AUTH_VER, 0])] + RequestEvents(net, creds, cmd, dst, h));
    }
  }

  // ---- the client's verdict --------------------------------------------------

  // What the client makes of an answer that could be built, and of none.
  function AnswerVerdict(net: Inet, rep: int, bound: Address): C.Verdict {
    if Message(net, rep, bound).None? then C.Waiting
    else C.Done(Reply(rep as byte, PeerAddress(net, bound)))
  }

  // The verdict the hook answers fix. A hook that took over with relay_raw sends the
  // reply itself, so its verdict is not fixed here.
  function ExpectedVerdict(net: Inet, creds: Option<Creds>, cmd: int, dst: Address, h: S.Hooks): C.Verdict
    requires !TakenOver(net, creds, cmd, dst, h)
  {
    var f := FinalFlags(net, creds, dst, h);
    if Denied(creds, h) then C.Failed(C.AuthDenied(1))
    else if cmd != CONNECT as int then C.Done(Reply(CMD_NOT_SUPPORTED as byte, ZERO_ADDRESS))
    else if f.rejected || f.failed then AnswerVerdict(net, f.rep, ZERO_ADDRESS)
    else if f.bound.Some? then AnswerVerdict(net, SUCCEEDED, f.bound.value)
    else C.Waiting
  }

  predicate TakenOver(net: Inet, creds: Option<Creds>, cmd: int, dst: Address, h: S.Hooks) {
    !Denied(creds, h) && cmd == CONNECT as int && FinalFlags(net, creds, dst, h).raw
  }

  lemma ReplyReading(net: Inet, rep: int, bound: Address, more: bytes)
    requires Message(net, rep, bound).Some?
    ensures C.ReplySpec(net, Message(net, rep, bound).value + more)
            == C.Reading(C.Done(Reply(rep as byte, PeerAddress(net, bound))), more)
  {
    hide Lawful, Message, MessageSize, ParseMessage;
    var m := Message(net, rep, bound).value;
    MessageRoundTrip(net, rep, bound, more);
    S.SizeKnown(m + more);
    assert (m + more)[|m|..] == more;
    assert |m + more| >= 4 && (m + more)[3] == m[3];
  }

  lemma AnswerSends(net: Inet, rep: int, bound: Address, last: Event)
    requires last.Close? || last.Relay?
    ensures Sends(Answer(net, rep, bound, last))
            == if Message(net, rep, bound).Some? then Message(net, rep, bound).value else []
  {
    hide Message, Lawful;
    var es := Answer(net, rep, bound, last);
    if |es| == 2 {
      assert es == [] + [es[0]] + [last];
      SendsSnoc([es[0]], last);
      SendsSnoc([], es[0]);
    } else {
      SendsSnoc([], es[0]);
      assert es == [] + [es[0]];
    }
  }

  lemma AnswerReading(net: Inet, rep: int, bound: Address, last: Event, more: bytes)
    requires last.Close? || last.Relay?
    requires Message(net, rep, bound).None? ==> more == []
    ensures C.ReplySpec(net, Sends(Answer(net, rep, bound, last)) + more)
            == C.Reading(AnswerVerdict(net, rep, bound), more)
  {
    hide Message, C.ReplySpec, Lawful, Answer, Sends;
    AnswerSends(net, rep, bound, last);
    if Message(net, rep, bound).Some? {
      ReplyReading(net, rep, bound, more);
    } else {
      EmptyReply(net);
      assert Sends(Answer(net, rep, bound, last)) + more == [];
    }
  }

  lemma EmptyReply(net: Inet)
    ensures C.ReplySpec(net, []) == C.Reading(C.Waiting, [])
  {
  }

  // Bytes come through the tunnel only once the trace ends in Relay.
  predicate Relayed(es: seq<Event>) {
    es != [] && es[|es| - 1].Relay?
  }

  // The verdict on the reply, and the tunnel bytes are exactly what it leaves.
  lemma RequestReading(net: Inet, creds: Option<Creds>, cmd: int, dst: Address, h: S.Hooks, tunnel: bytes)
    requires !Denied(creds, h) && !TakenOver(net, creds, cmd, dst, h)
    requires tunnel != [] ==> Relayed(RequestEvents(net, creds, cmd, dst, h))
    ensures C.ReplySpec(net, Sends(RequestEvents(net, creds, cmd, dst, h)) + tunnel)
            == C.Reading(ExpectedVerdict(net, creds, cmd, dst, h), tunnel)
  {
    hide Message, C.ReplySpec, Lawful, Sends, FinalFlags, Answer, AnswerVerdict;
    var f := FinalFlags(net, creds, dst, h);
    ZeroEncodable(net);
    if cmd != CONNECT as int {
      MessageBuilds(net, CMD_NOT_SUPPORTED, ZERO_ADDRESS);
      AnswerReading(net, CMD_NOT_SUPPORTED, ZERO_ADDRESS, Close(CommandNotSupported), tunnel);
      BuiltVerdict(net, CMD_NOT_SUPPORTED);
    } else {
      var ask := Connect(CONNECT, PeerAddress(net, dst));
      var verdict := S.ConnectVerdict(net, f);
      SendsAppend([ask], verdict);
      SendsSnoc([], ask);
      NoSends();
      assert [] + [ask] == [ask];
      assert [] + Sends(verdict) == Sends(verdict);
      if f.rejected {
        AnswerReading(net, f.rep, ZERO_ADDRESS, Close(RequestRejected), tunnel);
      } else if f.failed {
        AnswerReading(net, f.rep, ZERO_ADDRESS, Close(UpstreamFailed), tunnel);
      } else if f.bound.Some? {
        AnswerReading(net, SUCCEEDED, f.bound.value,
                      Relay(if f.target.Some? then f.target.value else f.bound.value), tunnel);
      } else {
        EmptyReply(net);
        assert tunnel == [] && verdict == [];
      }
    }
  }

  lemma BuiltVerdict(net: Inet, rep: int)
    requires 0 <= rep < 256
    ensures AnswerVerdict(net, rep, ZERO_ADDRESS) == C.Done(Reply(rep as byte, ZERO_ADDRESS))
  {
    hide Lawful, Message;
    ZeroEncodable(net);
    MessageBuilds(net, rep, ZERO_ADDRESS);
  }

  // The client's reading of the whole conversation: the verdict the hook answers fix,
  // and every tunnel byte left over, none lost and none taken for an answer.
  lemma TranscriptReading(net: Inet, creds: Option<Creds>, cmd: int, dst: Address, h: S.Hooks, tunnel: bytes)
    requires !TakenOver(net, creds, cmd, dst, h)
    requires tunnel != [] ==> Relayed(Expected(net, creds, cmd, dst, h))
    ensures Denied(creds, h) ==>
              C.Spec(net, creds.Some?, Sends(Expected(net, creds, cmd, dst, h)) + tunnel).verdict
              == ExpectedVerdict(net, creds, cmd, dst, h)
    ensures !Denied(creds, h) ==>
              C.Spec(net, creds.Some?, Sends(Expected(net, creds, cmd, dst, h)) + tunnel)
              == C.Reading(ExpectedVerdict(net, creds, cmd, dst, h), tunnel)
  {
    hide C.ReplySpec, Lawful, Sends, RequestEvents, AuthFlags, FinalFlags;
    OpeningSends(creds, h);
    var head := Sends(Opening(creds, h));
    if Denied(creds, h) {
      var b := head + tunnel;
      assert b[0] == VER && b[1] == USERPASS && b[2..][0] == AUTH_VER && b[2..][1] == 1;
    } else {
      var es := RequestEvents(net, creds, cmd, dst, h);
      RequestEventsSome(net, creds, cmd, dst, h);
      SendsAppend(Opening(creds, h), es);
      RequestReading(net, creds, cmd, dst, h, tunnel);
      OpeningReading(net, creds.Some?, Sends(es) + tunnel);
      assert head + Sends(es) + tunnel == head + (Sends(es) + tunnel);
    }
  }

  lemma RequestEventsSome(net: Inet, creds: Option<Creds>, cmd: int, dst: Address, h: S.Hooks)
    ensures RequestEvents(net, creds, cmd, dst, h) != []
  {
    hide Lawful, Message;
  }

  lemma OpeningSends(creds: Option<Creds>, h: S.Hooks)
    ensures Sends(Opening(creds, h))
            == if creds.None? then [VER, NO_AUTH]
               else if Denied(creds, h) then [VER, USERPASS, AUTH_VER, 1]
               else [VER, USERPASS, AUTH_VER, 0]
  {
    hide AuthFlags, Sends;
    var es := Opening(creds, h);
    NoSends();
    SendsSnoc([], es[0]);
    assert [] + [es[0]] == [es[0]];
    if creds.Some? {
      SendsSnoc([es[0]], es[1]);
      SendsSnoc([es[0], es[1]], es[2]);
      assert [es[0]] + [es[1]] == [es[0], es[1]];
      assert [es[0], es[1]] + [es[2]] == [es[0], es[1], es[2]];
      if Denied(creds, h) {
        SendsSnoc([es[0], es[1], es[2]], es[3]);
        assert es == [es[0], es[1], es[2]] + [es[3]];
      } else {
        assert es == [es[0], es[1], es[2]];
      }
    }
  }

  lemma OpeningReading(net: Inet, auth: bool, b: bytes)
    ensures var head := if auth then [VER, USERPASS, AUTH_VER, 0] else [VER, NO_AUTH];
            C.Spec(net, auth, head + b) == C.ReplySpec(net, b)
  {
    hide C.ReplySpec;
    if auth {
      var all := [VER, USERPASS, AUTH_VER, 0] + b;
      assert all[2..] == [AUTH_VER, 0] + b;
      assert all[2..][2..] == b;
    } else {
      assert ([VER, NO_AUTH] + b)[2..] == b;
    }
  }
}
