// Which refused peers are told so. The repository promises a protocol reply to all of
// them; the session has none for a wrong greeting version and for a wrong version of
// the credentials message, and a refusal with code zero reads as success.
module Refusals {
  import opened Wire
  import opened Codec
  import opened CodecLaws
  import opened ServerModel
  import opened Transcript
  import S = ServerSpec
  import G = ServerGrammar

  // A message that tells the client it was refused.
  predicate IsRefusal(data: bytes) {
    data == [VER, NO_ACCEPTABLE] || data == [AUTH_VER, 1] || (G.IsReply(data) && data[1] != 0)
  }

  // The session closes right after such a message.
  predicate ToldWhy(es: seq<Event>) {
    |es| >= 2 && es[|es| - 1].Close? && es[|es| - 2].Send? && IsRefusal(es[|es| - 2].data)
  }

  // What follows a complete greeting.
  function Behind(b: bytes): bytes
    requires ParseGreeting(b).Some?
  {
    b[2 + |ParseGreeting(b).value|..]
  }

  predicate WrongGreeting(b: bytes) {
    b != [] && b[0] != VER
  }

  // The server has asked for credentials, and what came is no credentials message.
  predicate WrongCredentials(requireAuth: bool, b: bytes) {
    && requireAuth && ParseGreeting(b).Some? && USERPASS in ParseGreeting(b).value
    && Behind(b) != [] && Behind(b)[0] != AUTH_VER
  }

  predicate Mute(requireAuth: bool, b: bytes) {
    WrongGreeting(b) || WrongCredentials(requireAuth, b)
  }

  // ---- the flags a stream's verdict goes by -----------------------------------

  // The flags once the connect hook has answered; None: the stream asks for no
  // connection.
  function RequestFlags(net: Inet, f: Flags, b: bytes, h: S.Hooks): Option<Flags> {
    match ParseMessage(net, b)
    case None => None
    case Some((cmd, dst)) =>
      if cmd != CONNECT then None
      else
        var g := ForConnect(f, dst);
        Some(DecideAll(g, h.connect(g, cmd, dst)))
  }

  function ClearedFlags(net: Inet, f: Flags, b: bytes, h: S.Hooks): Option<Flags> {
    match ParseUserpass(b)
    case None => None
    case Some(creds) =>
      var g := f.(rejected := false);
      var f' := DecideAll(g, h.authorize(g, creds));
      if f'.rejected then None else RequestFlags(net, f', b[UserpassSize(b).value..], h)
  }

  function VerdictFlags(net: Inet, requireAuth: bool, b: bytes, h: S.Hooks): Option<Flags> {
    match ParseGreeting(b)
    case None => None
    case Some(methods) =>
      if !requireAuth then RequestFlags(net, INITIAL_FLAGS, Behind(b), h)
      else if USERPASS in methods then ClearedFlags(net, INITIAL_FLAGS, Behind(b), h)
      else None
  }

  // The connection is refused with a code a reply can carry and a client can tell from
  // success.
  predicate Refuses(f: Flags) {
    (f.rejected || f.failed) && 0 < f.rep < 256
  }

  predicate RefusesWithZero(f: Flags) {
    !f.raw && (f.rejected || f.failed) && f.rep == 0
  }

  predicate ZeroRefusal(net: Inet, requireAuth: bool, b: bytes, h: S.Hooks) {
    var f := VerdictFlags(net, requireAuth, b, h);
    f.Some? && RefusesWithZero(f.value)
  }

  // ---- who is told -----------------------------------------------------------

  lemma ShortNotReply(data: bytes)
    ensures |data| < 7 ==> !G.IsReply(data)
  {
  }

  // All that a peer with one of the two faults is ever sent: a wrong greeting version is
  // met with a bare close; a wrong credentials version with nothing while at most 513
  // bytes stand behind the greeting, and then with a bare close. Further bytes, however
  // many, keep it so.
  lemma MuteStory(net: Inet, requireAuth: bool, b: bytes, more: bytes, h: S.Hooks)
    requires Mute(requireAuth, b)
    ensures S.Spec(net, requireAuth, b, h).events
            == if WrongGreeting(b) then [Close(BadVersion)]
               else [Send([VER, USERPASS])] + (if |Behind(b)| > 513 then [Close(AuthTooLarge)] else [])
    ensures Mute(requireAuth, b + more)
  {
    hide Lawful, S.RequestSpec, ParseGreeting;
    if WrongGreeting(b) {
      assert (b + more)[0] == b[0];
    } else {
      GreetingExtent(b, more, 0);
      TakeThenMore(b, more, 2 + |ParseGreeting(b).value|);
      assert (Behind(b) + more)[0] == Behind(b)[0];
    }
  }

  // The handshake is over and nothing is relayed.
  predicate Ended(es: seq<Event>) {
    S.Finished(es) && !Relayed(es)
  }

  predicate Closes(es: seq<Event>) {
    es != [] && es[|es| - 1].Close?
  }

  // "Rejected with a protocol reply, not left hanging": a session whose handshake ends
  // without relaying has told the client it was refused, if and only if the client's
  // bytes have neither of the two faults and the hooks and the dial, where they were
  // asked, refused with a code from 1 to 255. Among the sessions that end in a close,
  // the code that fails it is zero.
  lemma RefusalToldExactly(net: Inet, requireAuth: bool, b: bytes, h: S.Hooks)
    ensures var es := S.Spec(net, requireAuth, b, h).events;
            var f := VerdictFlags(net, requireAuth, b, h);
            && (Ended(es) ==> (ToldWhy(es) <==> !Mute(requireAuth, b) && (f.Some? ==> Refuses(f.value))))
            && (Closes(es) ==> (ToldWhy(es) <==> !Mute(requireAuth, b) && !ZeroRefusal(net, requireAuth, b, h)))
  {
    hide Lawful, S.AuthSpec, S.RequestSpec, G.IsReply, Refuses, RefusesWithZero, RequestFlags, ClearedFlags;
    ShortNotReply([VER, USERPASS]);
    if Mute(requireAuth, b) {
      MuteStory(net, requireAuth, b, [], h);
    } else if ParseGreeting(b).Some? {
      if !requireAuth {
        RequestTold(net, INITIAL_FLAGS, Behind(b), h);
      } else if USERPASS in ParseGreeting(b).value {
        AuthTold(net, INITIAL_FLAGS, Behind(b), h);
      }
    }
  }

  // A trace that ends without a Relay, if it does, tells why exactly when the flags its
  // verdict went by say so; a close has a message before it.
  predicate Tells(es: seq<Event>, f: Option<Flags>) {
    && (Ended(es) ==> (ToldWhy(es) <==> (f.Some? ==> Refuses(f.value))))
    && (Closes(es) ==> |es| >= 2 && (f.Some? ==> (Refuses(f.value) <==> !RefusesWithZero(f.value))))
  }

  lemma RequestTold(net: Inet, f: Flags, b: bytes, h: S.Hooks)
    ensures Tells(S.RequestSpec(net, f, b, h).events, RequestFlags(net, f, b, h))
  {
    hide Lawful, Message, ParseMessage, MessageSize, G.IsReply, S.ConnectVerdict, Refuses, RefusesWithZero;
    G.AnswerIsReply(net, ATYP_NOT_SUPPORTED, ZERO_ADDRESS);
    G.AnswerIsReply(net, GENERAL_FAILURE, ZERO_ADDRESS);
    G.AnswerIsReply(net, CMD_NOT_SUPPORTED, ZERO_ADDRESS);
    ParseMessageExtent(net, b);
    S.SizeKnown(b);
    forall g
      ensures Tells(S.ConnectVerdict(net, g), Some(g))
    {
      VerdictTold(net, g);
    }
  }

  lemma VerdictTold(net: Inet, f: Flags)
    ensures Tells(S.ConnectVerdict(net, f), Some(f))
  {
    hide Lawful, Message, G.IsReply;
    G.AnswerIsReply(net, f.rep, ZERO_ADDRESS);
    MessageBuilds(net, f.rep, ZERO_ADDRESS);
  }

  lemma AuthTold(net: Inet, f: Flags, b: bytes, h: S.Hooks)
    requires b != [] ==> b[0] == AUTH_VER
    ensures Tells(S.AuthSpec(net, f, b, h).events, ClearedFlags(net, f, b, h))
  {
    hide Lawful, S.RequestSpec, G.IsReply, RequestFlags, Refuses, RefusesWithZero;
    if UserpassSize(b).Some? {
      var g := f.(rejected := false);
      var f' := DecideAll(g, h.authorize(g, ParseUserpass(b).value));
      RequestTold(net, f', b[UserpassSize(b).value..], h);
    } else if |b| > 513 {
      UserpassStuck(b, []);
    }
  }

  // A SOCKS4 request is met with a bare close.
  lemma BareClose(net: Inet, requireAuth: bool, h: S.Hooks)
    ensures S.Spec(net, requireAuth, [4, 1, 0, 80], h).events == [Close(BadVersion)]
  {
    MuteStory(net, requireAuth, [4, 1, 0, 80], [], h);
  }

  // A request sent in place of credentials is met with silence.
  lemma LeftHanging(net: Inet, h: S.Hooks)
    ensures S.Spec(net, true, [VER, 1, USERPASS, VER, CONNECT, 0, IPV4], h).events == [Send([VER, USERPASS])]
  {
    var b: bytes := [VER, 1, USERPASS, VER, CONNECT, 0, IPV4];
    assert ParseGreeting(b) == Some(b[2..3]);
    assert b[2..3] == [USERPASS] && Behind(b) == [VER, CONNECT, 0, IPV4];
    MuteStory(net, true, b, [], h);
  }
}
