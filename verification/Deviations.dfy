// Where the code departs from RFC 1928 or from its own documentation, and exactly
// when it does.
module Deviations {
  import opened Wire
  import opened Codec
  import opened CodecLaws
  import opened ServerModel
  import opened Refusals
  import opened Transcript
  import S = ServerSpec
  import C = ClientModel
  import G = ServerGrammar

  // ---- the chosen method -----------------------------------------------------

  // The method a server announces to a greeting.
  function Chosen(requireAuth: bool, methods: bytes): byte {
    if !requireAuth then NO_AUTH else if USERPASS in methods then USERPASS else NO_ACCEPTABLE
  }

  // Section 3 of RFC 1928 has the server select one of the offered methods or refuse
  // them all. It does so if and only if it demands authentication or the client
  // offered to do without.
  lemma MethodOfferedExactly(net: Inet, requireAuth: bool, methods: bytes, rest: bytes, h: S.Hooks)
    requires |methods| <= 255
    ensures var es := S.Spec(net, requireAuth, ClientGreeting(methods).value + rest, h).events;
            && es != [] && es[0] == Send([VER, Chosen(requireAuth, methods)])
            && (Chosen(requireAuth, methods) in methods + [NO_ACCEPTABLE] <==> requireAuth || NO_AUTH in methods)
  {
    hide Lawful, S.AuthSpec, S.RequestSpec, ParseGreeting;
    GreetingRoundTrip(methods, rest);
  }

  // A client that offers only username/password is told to go on without.
  lemma MethodNotOffered(net: Inet, h: S.Hooks)
    ensures Chosen(false, [USERPASS]) !in [USERPASS, NO_ACCEPTABLE]
    ensures S.Spec(net, false, [VER, 1, USERPASS], h).events == [Send([VER, NO_AUTH])]
  {
    hide Lawful, S.AuthSpec;
    var b: bytes := [VER, 1, USERPASS];
    assert ParseGreeting(b) == Some(b[2..3]);
    assert b[2..3] == [USERPASS] && b[3..] == [];
  }

  // ---- the reply code --------------------------------------------------------

  // Section 6 of RFC 1928 makes REP zero mean success. A reply says success exactly
  // when the session goes on to relay, if and only if no hook refused with code zero.
  lemma ReplyHonestExactly(net: Inet, f: Flags)
    requires var es := S.ConnectVerdict(net, f); es != [] && es[0].Send?
    ensures var es := S.ConnectVerdict(net, f);
            && G.IsReply(es[0].data)
            && ((es[0].data[1] == 0 <==> Relayed(es)) <==> !((f.rejected || f.failed) && f.rep == 0))
  {
    hide Lawful, Message, G.IsReply;
    G.AnswerIsReply(net, f.rep, ZERO_ADDRESS);
    if f.bound.Some? {
      G.AnswerIsReply(net, SUCCEEDED, f.bound.value);
    }
  }

  // The same on a whole pipeline, from the server's hooks to the client's verdict: the
  // client is told it is connected exactly when the session relays, if and only if
  // neither a hook nor the dial put code zero on a refusal.
  lemma SuccessHonestExactly(net: Inet, creds: Option<Creds>, dst: Address, h: S.Hooks, early: bytes)
    requires C.Pipeline(net, creds, CONNECT as int, dst).Some?
    requires !Denied(creds, h) && !TakenOver(net, creds, CONNECT as int, dst, h)
    ensures var es := S.Spec(net, creds.Some?, C.Pipeline(net, creds, CONNECT as int, dst).value + early, h).events;
            var verdict := C.Spec(net, creds.Some?, Sends(es)).verdict;
            var f := FinalFlags(net, creds, dst, h);
            (verdict.Done? && verdict.reply.rep == 0 <==> Relayed(es)) <==> !((f.rejected || f.failed) && f.rep == 0)
  {
    hide Lawful, C.Pipeline, C.Spec, S.Spec, Sends, Message, FinalFlags, Denied, Opening;
    PipelineStory(net, creds, CONNECT as int, dst, h, early);
    TranscriptReading(net, creds, CONNECT as int, dst, h, []);
    var es := Expected(net, creds, CONNECT as int, dst, h);
    assert Sends(es) + [] == Sends(es);
    BuiltVerdict(net, 0);
  }

  // Hooks that accept everyone and refuse every connection with one code.
  function RefuseWith(rep: int): S.Hooks {
    S.Hooks((f, creds) => [Ok], (f, cmd, dst) => [Reject(rep)])
  }

  // The client is told it is connected while the session closes, and not that it was
  // refused.
  lemma RefusedWithSuccess(net: Inet, creds: Option<Creds>, dst: Address, early: bytes)
    requires C.Pipeline(net, creds, CONNECT as int, dst).Some?
    ensures var es := S.Spec(net, creds.Some?, C.Pipeline(net, creds, CONNECT as int, dst).value + early,
                             RefuseWith(0)).events;
            && es != [] && es[|es| - 1] == Close(RequestRejected)
            && !ToldWhy(es)
            && C.Spec(net, creds.Some?, Sends(es)).verdict == C.Done(Reply(0, ZERO_ADDRESS))
  {
    hide Lawful, C.Pipeline, C.Spec, S.Spec, Sends, Message, Opening;
    var h := RefuseWith(0);
    PipelineStory(net, creds, CONNECT as int, dst, h, early);
    DecideOne(INITIAL_FLAGS, Ok);
    DecideOne(ForConnect(AuthFlags(creds, h), PeerAddress(net, dst)), Reject(0));
    TranscriptReading(net, creds, CONNECT as int, dst, h, []);
    var es := Expected(net, creds, CONNECT as int, dst, h);
    assert Sends(es) + [] == Sends(es);
    BuiltVerdict(net, 0);
    G.AnswerIsReply(net, 0, ZERO_ADDRESS);
  }

  // A code that no reply can carry: the exception leaves the client without a word.
  lemma RefusedUnsaid(net: Inet, creds: Option<Creds>, dst: Address, early: bytes, rep: int)
    requires C.Pipeline(net, creds, CONNECT as int, dst).Some? && !(0 <= rep < 256)
    ensures var es := S.Spec(net, creds.Some?, C.Pipeline(net, creds, CONNECT as int, dst).value + early,
                             RefuseWith(rep)).events;
            && es != [] && es[|es| - 1] == Raised(Unencodable)
            && C.Spec(net, creds.Some?, Sends(es)).verdict == C.Waiting
  {
    hide Lawful, C.Pipeline, C.Spec, S.Spec, Sends, Message, Opening;
    var h := RefuseWith(rep);
    PipelineStory(net, creds, CONNECT as int, dst, h, early);
    DecideOne(INITIAL_FLAGS, Ok);
    DecideOne(ForConnect(AuthFlags(creds, h), PeerAddress(net, dst)), Reject(rep));
    TranscriptReading(net, creds, CONNECT as int, dst, h, []);
    var es := Expected(net, creds, CONNECT as int, dst, h);
    assert Sends(es) + [] == Sends(es);
    MessageBuilds(net, rep, ZERO_ADDRESS);
  }

  lemma DecideOne(f: Flags, d: Decision)
    ensures DecideAll(f, [d]) == Decide(f, d)
  {
    assert [d][..0] == [];
    assert DecideAll(f, []) == f;
  }

  // ---- a hook that decides nothing -------------------------------------------

  // An authorize hook that makes no call lets the client in: the gate is closed only by
  // a rejection.
  lemma UndecidedAccepts(net: Inet, creds: Creds, cmd: int, dst: Address, h: S.Hooks, early: bytes)
    requires C.Pipeline(net, Some(creds), cmd, dst).Some?
    requires h.authorize(INITIAL_FLAGS, creds) == []
    ensures var es := S.Spec(net, true, C.Pipeline(net, Some(creds), cmd, dst).value + early, h).events;
            [Send([VER, USERPASS]), Authorize(creds), Send([AUTH_VER, 0])] <= es
  {
    hide Lawful, C.Pipeline, S.Spec, Message, RequestEvents;
    PipelineStory(net, Some(creds), cmd, dst, h, early);
    assert AuthFlags(Some(creds), h) == INITIAL_FLAGS;
  }
}
