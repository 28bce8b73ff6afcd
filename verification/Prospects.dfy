// Whether what a client has sent can still lead to a connection, and what becomes of a
// client when it cannot.
module Prospects {
  import opened Wire
  import opened Codec
  import opened CodecLaws
  import opened ServerModel
  import opened Refusals
  import S = ServerSpec
  import G = ServerGrammar

  // ---- streams that lead nowhere ---------------------------------------------

  predicate HopelessRequest(b: bytes) {
    || (|b| >= 1 && b[0] != VER)
    || (|b| >= 2 && b[1] != CONNECT)
    || (|b| >= 4 && !KnownAtyp(b[3]))
  }

  predicate HopelessAuth(b: bytes) {
    || (b != [] && b[0] != AUTH_VER)
    || (UserpassSize(b).Some? && HopelessRequest(b[UserpassSize(b).value..]))
  }

  // Read off the bytes alone: nothing the client sends next can lead to a connection.
  predicate Hopeless(requireAuth: bool, b: bytes) {
    || WrongGreeting(b)
    || (ParseGreeting(b).Some? &&
        if requireAuth then USERPASS !in ParseGreeting(b).value || HopelessAuth(Behind(b))
        else HopelessRequest(Behind(b)))
  }

  predicate Connects(es: seq<Event>) {
    exists i :: 0 <= i < |es| && es[i].Connect?
  }

  predicate LeadsOn(net: Inet, requireAuth: bool, b: bytes, more: bytes, h: S.Hooks) {
    Connects(S.Spec(net, requireAuth, b + more, h).events)
  }

  lemma ConnectsBehind(e: Event, es: seq<Event>)
    ensures Connects([e] + es) <==> e.Connect? || Connects(es)
  {
    var all := [e] + es;
    if Connects(es) {
      var i :| 0 <= i < |es| && es[i].Connect?;
      assert all[i + 1] == es[i];
    }
    assert e.Connect? ==> all[0].Connect?;
  }

  // ---- what a hopeless client is told ----------------------------------------

  // The request is answered with a refusal and a close once it is complete.
  lemma HopelessRequestTold(net: Inet, f: Flags, b: bytes, more: bytes, h: S.Hooks)
    requires HopelessRequest(b)
    ensures var es := S.RequestSpec(net, f, b + more, h).events;
            && !Connects(es)
            && (|more| >= 261 ==> ToldWhy(es))
  {
    hide Lawful, Message, G.IsReply, AddressAt, S.ConnectVerdict;
    var all := b + more;
    assert forall i :: 0 <= i < |b| ==> all[i] == b[i];
    G.AnswerIsReply(net, ATYP_NOT_SUPPORTED, ZERO_ADDRESS);
    G.AnswerIsReply(net, GENERAL_FAILURE, ZERO_ADDRESS);
    G.AnswerIsReply(net, CMD_NOT_SUPPORTED, ZERO_ADDRESS);
  }

  lemma HopelessVerdictTold(net: Inet, f: Flags, b: bytes, more: bytes, h: S.Hooks)
    requires HopelessRequest(b)
    ensures var es := S.AuthVerdict(net, f, b + more, h).events;
            && !Connects(es)
            && (|more| >= 261 ==> ToldWhy(es))
  {
    hide Lawful, G.IsReply, S.RequestSpec;
    HopelessRequestTold(net, f, b, more, h);
    ConnectsBehind(Send([AUTH_VER, 0]), S.RequestSpec(net, f, b + more, h).events);
  }

  lemma HopelessAuthTold(net: Inet, f: Flags, b: bytes, more: bytes, h: S.Hooks)
    requires HopelessAuth(b)
    ensures var es := S.AuthSpec(net, f, b + more, h).events;
            && !Connects(es)
            && ((b == [] || b[0] == AUTH_VER) && |more| >= 261 ==> ToldWhy(es))
  {
    hide Lawful, G.IsReply, S.AuthVerdict, HopelessRequest, ParseUserpass;
    if b[0] != AUTH_VER {
      assert (b + more)[0] == b[0];
      assert ParseUserpass(b + more) == None by { WrongVersionUnread(b + more); }
    } else {
      var n := UserpassSize(b).value;
      G.UserpassTaken(b);
      UserpassExtent(b, more, 0);
      TakeThenMore(b, more, n);
      var creds := ParseUserpass(b).value;
      var g := DecideAll(f.(rejected := false), h.authorize(f.(rejected := false), creds));
      HopelessVerdictTold(net, g, b[n..], more, h);
      ConnectsBehind(Authorize(creds), S.AuthVerdict(net, g, b[n..] + more, h).events);
    }
  }

  lemma WrongVersionUnread(b: bytes)
    requires b != [] && b[0] != AUTH_VER
    ensures ParseUserpass(b) == None
  {
  }

  // Nothing a hopeless client goes on to send, and nothing the hooks decide, leads to a
  // connection. Once its message is complete, at the latest 261 bytes later, it has been
  // told so and the session has closed; unless its fault is one of the two the session
  // has no answer for, and then it is never told.
  lemma HopelessToldExactly(net: Inet, requireAuth: bool, b: bytes, more: bytes, h: S.Hooks)
    requires Hopeless(requireAuth, b)
    ensures !LeadsOn(net, requireAuth, b, more, h)
    ensures ToldWhy(S.Spec(net, requireAuth, b + more, h).events) ==> !Mute(requireAuth, b)
    ensures |more| >= 261 && !Mute(requireAuth, b) ==> ToldWhy(S.Spec(net, requireAuth, b + more, h).events)
  {
    hide Lawful, G.IsReply, S.AuthSpec, S.RequestSpec, HopelessRequest, HopelessAuth, ParseGreeting;
    ShortNotReply([VER, USERPASS]);
    if Mute(requireAuth, b) {
      MuteStory(net, requireAuth, b, more, h);
      MuteStory(net, requireAuth, b + more, [], h);
    } else {
      var methods := ParseGreeting(b).value;
      GreetingExtent(b, more, 0);
      TakeThenMore(b, more, 2 + |methods|);
      assert (b + more)[0] == b[0];
      if !requireAuth {
        HopelessRequestTold(net, INITIAL_FLAGS, Behind(b), more, h);
        ConnectsBehind(Send([VER, NO_AUTH]), S.RequestSpec(net, INITIAL_FLAGS, Behind(b) + more, h).events);
      } else if USERPASS in methods {
        HopelessAuthTold(net, INITIAL_FLAGS, Behind(b), more, h);
        ConnectsBehind(Send([VER, USERPASS]), S.AuthSpec(net, INITIAL_FLAGS, Behind(b) + more, h).events);
      } else {
        assert S.Spec(net, requireAuth, b + more, h).events
            == [Send([VER, NO_ACCEPTABLE]), Close(NoAcceptableMethod)];
      }
    }
  }

  // A request with the wrong version and one byte short: 260 bytes later, still no word.
  lemma ToldBoundReached(net: Inet, h: S.Hooks)
    ensures exists b, more ::
              && Hopeless(false, b) && !Mute(false, b) && |more| == 260
              && !ToldWhy(S.Spec(net, false, b + more, h).events)
  {
    hide Lawful;
    var b: bytes := [VER, 1, NO_AUTH, 4];
    var more: bytes := [CONNECT, 0, DOMAIN, 255] + seq(256, _ => 0);
    assert ParseGreeting(b) == Some(b[2..3]) && Behind(b) == [4];
    GreetingExtent(b, more, 0);
    var rest := [4] + more;
    assert (b + more)[3..] == rest && rest[3] == DOMAIN && rest[4] == 255 && |rest| == 261;
    assert S.RequestSpec(net, INITIAL_FLAGS, rest, h).events == [];
    assert Hopeless(false, b);
  }

  // ---- streams that can still lead to a connection -----------------------------

  function Zeros(n: nat): bytes {
    seq(n, _ => 0)
  }

  // Hooks that decide nothing.
  function SilentHooks(): S.Hooks {
    S.Hooks((f, creds) => [], (f, cmd, dst) => [])
  }

  // What completes a request for an all-zero address.
  function RequestRest(b: bytes): bytes {
    if |b| < 4 then [VER, CONNECT, 0, IPV4][|b|..] + Zeros(6)
    else
      match MessageSize(b)
      case None => Zeros(3)
      case Some(n) => if |b| < n then Zeros(n - |b|) else []
  }

  lemma RequestCompletes(net: Inet, f: Flags, b: bytes, h: S.Hooks)
    requires !HopelessRequest(b)
    ensures Connects(S.RequestSpec(net, f, b + RequestRest(b), h).events)
  {
    hide Lawful, ParseMessage, S.ConnectVerdict;
    RequestSized(b);
    var all := b + RequestRest(b);
    ParseMessageExtent(net, all);
    TagRead(net, all);
    var es := S.RequestSpec(net, f, all, h).events;
    assert es[0].Connect?;
  }

  lemma TagRead(net: Inet, b: bytes)
    ensures ParseMessage(net, b).Some? ==> |b| >= 4 && ParseMessage(net, b).value.0 == b[1]
  {
    hide Lawful, AddressAt;
  }

  lemma RequestSized(b: bytes)
    requires !HopelessRequest(b)
    ensures var all := b + RequestRest(b);
            && |all| >= 4 && all[0] == VER && all[1] == CONNECT && KnownAtyp(all[3])
            && MessageSize(all).Some? && MessageSize(all).value <= |all|
  {
    var all := b + RequestRest(b);
    assert forall i :: 0 <= i < |b| ==> all[i] == b[i];
    if |b| < 4 {
      assert forall i :: |b| <= i < 4 ==> all[i] == [VER, CONNECT, 0, IPV4][i];
    } else if MessageSize(b).Some? {
      MessageSizeStable(b, RequestRest(b));
    } else {
      assert all[4] == 0;
    }
  }

  // What completes a credentials message, with an empty password if it can.
  function AuthRest(b: bytes): bytes {
    if |b| < 2 then [AUTH_VER, 0, 0][|b|..]
    else if |b| < 3 + b[1] as nat then Zeros(3 + b[1] as nat - |b|)
    else
      var n := 3 + b[1] as nat + b[2 + b[1] as nat] as nat;
      if |b| < n then Zeros(n - |b|) else []
  }

  lemma AuthSized(b: bytes)
    requires (b == [] || b[0] == AUTH_VER) && UserpassSize(b) == None
    ensures UserpassSize(b + AuthRest(b)) == Some(|b + AuthRest(b)|)
  {
    var all := b + AuthRest(b);
    assert forall i :: 0 <= i < |b| ==> all[i] == b[i];
    if |b| < 2 {
      assert all == [AUTH_VER, 0, 0];
    } else if |b| < 3 + b[1] as nat {
      assert all[2 + b[1] as nat] == 0;
    }
  }

  // The credentials message and the request.
  function CredentialsRest(b: bytes): bytes {
    match UserpassSize(b)
    case None => AuthRest(b) + RequestRest([])
    case Some(n) => if n <= |b| then RequestRest(b[n..]) else []
  }

  lemma CredentialsComplete(net: Inet, f: Flags, b: bytes)
    requires !HopelessAuth(b)
    ensures Connects(S.AuthSpec(net, f, b + CredentialsRest(b), SilentHooks()).events)
  {
    hide Lawful, S.RequestSpec, HopelessRequest, RequestRest, UserpassSize, ParseUserpass, AuthRest;
    var h := SilentHooks();
    var all := b + CredentialsRest(b);
    var g := f.(rejected := false);
    G.UserpassTaken(b);
    G.UserpassTaken(all);
    var rest, more := [], RequestRest([]);
    if UserpassSize(b).Some? {
      var n := UserpassSize(b).value;
      UserpassExtent(b, CredentialsRest(b), 0);
      TakeThenMore(b, CredentialsRest(b), n);
      rest, more := b[n..], RequestRest(b[n..]);
    } else {
      AuthSized(b);
      var whole := b + AuthRest(b);
      assert all == whole + RequestRest([]);
      UserpassExtent(whole, RequestRest([]), 0);
      TakeThenMore(whole, RequestRest([]), |whole|);
      assert whole[|whole|..] == [];
      NothingHopeless();
    }
    assert all[UserpassSize(all).value..] == rest + more;
    RequestCompletes(net, g, rest, h);
    assert DecideAll(g, []) == g;
    var es := S.RequestSpec(net, g, rest + more, h).events;
    ConnectsBehind(Send([AUTH_VER, 0]), es);
    ConnectsBehind(Authorize(ParseUserpass(all).value), [Send([AUTH_VER, 0])] + es);
  }

  lemma NothingHopeless()
    ensures !HopelessRequest([])
  {
  }

  // What completes a greeting that offers credentials too.
  function GreetingRest(b: bytes): bytes {
    if |b| < 2 then [VER, 1, USERPASS][|b|..]
    else if |b| < 2 + b[1] as nat then seq(2 + b[1] as nat - |b|, _ => USERPASS) else []
  }

  lemma GreetingSized(b: bytes)
    requires !WrongGreeting(b) && ParseGreeting(b).None?
    ensures var all := b + GreetingRest(b);
            ParseGreeting(all).Some? && USERPASS in ParseGreeting(all).value && Behind(all) == []
  {
    var all := b + GreetingRest(b);
    assert forall i :: 0 <= i < |b| ==> all[i] == b[i];
    assert |b| < 2 ==> all[|all| - 1] == USERPASS && all[0] == VER && all[1] as int == |all| - 2;
    assert all[|all| - 1] == USERPASS && |all| > 2;
    assert ParseGreeting(all).value[|all| - 3] == USERPASS;
  }

  // The rest of a handshake that leads to a connection.
  function Completion(requireAuth: bool, b: bytes): bytes {
    match ParseGreeting(b)
    case None => GreetingRest(b) + (if requireAuth then CredentialsRest([]) else RequestRest([]))
    case Some(_) => if requireAuth then CredentialsRest(Behind(b)) else RequestRest(Behind(b))
  }

  lemma GreetedCompletes(net: Inet, requireAuth: bool, b: bytes)
    requires ParseGreeting(b).Some? && b[0] == VER && !Hopeless(requireAuth, b)
    ensures LeadsOn(net, requireAuth, b,
                    if requireAuth then CredentialsRest(Behind(b)) else RequestRest(Behind(b)), SilentHooks())
  {
    hide Lawful, ParseGreeting, S.AuthSpec, S.RequestSpec, HopelessAuth, HopelessRequest, CredentialsRest, RequestRest;
    hide SilentHooks;
    var h := SilentHooks();
    var more := if requireAuth then CredentialsRest(Behind(b)) else RequestRest(Behind(b));
    GreetingExtent(b, more, 0);
    TakeThenMore(b, more, 2 + |ParseGreeting(b).value|);
    assert (b + more)[0] == b[0];
    if requireAuth {
      CredentialsComplete(net, INITIAL_FLAGS, Behind(b));
      ConnectsBehind(Send([VER, USERPASS]), S.AuthSpec(net, INITIAL_FLAGS, Behind(b) + more, h).events);
    } else {
      RequestCompletes(net, INITIAL_FLAGS, Behind(b), h);
      ConnectsBehind(Send([VER, NO_AUTH]), S.RequestSpec(net, INITIAL_FLAGS, Behind(b) + more, h).events);
    }
  }

  lemma HopefulCompletes(net: Inet, requireAuth: bool, b: bytes)
    requires !Hopeless(requireAuth, b)
    ensures LeadsOn(net, requireAuth, b, Completion(requireAuth, b), SilentHooks())
  {
    hide Lawful, ParseGreeting, S.Spec, HopelessAuth, HopelessRequest, CredentialsRest, RequestRest;
    hide SilentHooks, GreetingRest;
    if ParseGreeting(b).Some? {
      VersionRead(b);
      GreetedCompletes(net, requireAuth, b);
    } else {
      GreetingSized(b);
      var all := b + GreetingRest(b);
      VersionRead(all);
      NothingHopeless();
      NoCredentialsYet();
      GreetedCompletes(net, requireAuth, all);
      var more := if requireAuth then CredentialsRest([]) else RequestRest([]);
      assert all + more == b + Completion(requireAuth, b);
    }
  }

  lemma VersionRead(b: bytes)
    requires ParseGreeting(b).Some?
    ensures b != [] && b[0] == VER
  {
  }

  lemma NoCredentialsYet()
    ensures !HopelessAuth([])
  {
  }

  // A stream is hopeless if and only if no continuation, under any hooks, connects.
  lemma HopelessExactly(net: Inet, requireAuth: bool, b: bytes)
    ensures Hopeless(requireAuth, b) <==> forall more, h :: !LeadsOn(net, requireAuth, b, more, h)
  {
    hide Hopeless, LeadsOn, Mute, ToldWhy;
    if Hopeless(requireAuth, b) {
      forall more, h
        ensures !LeadsOn(net, requireAuth, b, more, h)
      {
        HopelessToldExactly(net, requireAuth, b, more, h);
      }
    } else {
      HopefulCompletes(net, requireAuth, b);
    }
  }
}
