// How long a session can ask for more: a bound on the bytes received, reached.
module WaitBounds {
  import opened Wire
  import opened Codec
  import opened CodecLaws
  import opened ServerModel
  import opened ServerGrammar

  // The most that can have been consumed by the time a stage is reached.
  function EatenCap(requireAuth: bool, q: Stage): nat {
    match q
    case Fresh => 0
    case Offered => 257
    case Asked => 257 + 513
    case Cleared => if requireAuth then 257 + 513 else 257
    case _ => 257 + 513 + 262
  }

  lemma AdvanceEats(net: Inet, requireAuth: bool, q: Stage, e: Event, ate: bytes)
    requires Advance(net, requireAuth, q, e, ate).Some?
    requires q.Offered? || q.Asked? ==> requireAuth
    ensures var q' := Advance(net, requireAuth, q, e, ate).value;
            && EatenCap(requireAuth, q) + |ate| <= EatenCap(requireAuth, q')
            && (q'.Offered? || q'.Asked? ==> requireAuth)
  {
    hide Lawful, ParseMessage, AddressSize;
  }

  lemma {:induction false} EatenBound(net: Inet, requireAuth: bool, log: seq<Entry>)
    requires StageOf(net, requireAuth, log).Some?
    ensures var q := StageOf(net, requireAuth, log).value;
            && |Eaten(log)| <= EatenCap(requireAuth, q)
            && (q.Offered? || q.Asked? ==> requireAuth)
  {
    hide Advance;
    if log == [] {
    } else {
      var init, x := log[..|log| - 1], log[|log| - 1];
      EatenBound(net, requireAuth, init);
      if x.Got? {
        AdvanceEats(net, requireAuth, StageOf(net, requireAuth, init).value, x.e, x.ate);
      }
    }
  }

  // What can be buffered while the session asks for more.
  lemma WaitingBuffer(net: Inet, s: Srv)
    requires WellFormed(s) && Next(net, s).1 == NeedData
    ensures s.phase == Greeting ==> |s.buf| <= 256
    ensures s.phase == Auth ==> |s.buf| <= 513
    ensures s.phase == Request ==> |s.buf| <= 261
    ensures s.phase == Greeting || s.phase == Auth || s.phase == Request
  {
    hide Lawful, Message, ParseMessage, ParseUserpass, Answer;
  }

  function MostReceived(requireAuth: bool): nat {
    if requireAuth then 1031 else 518
  }

  // Whatever calls were made: if the next pull asks for more bytes, then at most
  // 1031 bytes were ever received, and at most 518 without authentication.
  lemma WaitBound(net: Inet, requireAuth: bool, calls: seq<Call>)
    ensures var (s, log) := Run(net, requireAuth, calls);
            Next(net, s).1 == NeedData ==> |Received(log)| <= MostReceived(requireAuth)
  {
    hide Run, Next, StageOf, Lawful;
    Grammar(net, requireAuth, calls);
    var (s, log) := Run(net, requireAuth, calls);
    EatenBound(net, requireAuth, log);
    if Next(net, s).1 == NeedData {
      WaitingBuffer(net, s);
    }
  }

  // The size guard on the auth message fires exactly when more than 513 bytes are
  // buffered behind a wrong version byte.
  lemma AuthGuardExact(net: Inet, s: Srv)
    requires s.out == []
    ensures Next(net, s).1 == Close(AuthTooLarge)
            <==> s.phase == Auth && |s.buf| > 513 && s.buf[0] != AUTH_VER
  {
    hide Lawful, Message, ParseMessage, MessageSize, Answer, StepGreeting;
    if s.phase == Auth && |s.buf| > 513 && UserpassSize(s.buf) == None {
      UserpassStuck(s.buf, []);
    }
    StepGreetingCloses(s);
  }

  lemma StepGreetingCloses(s: Srv)
    ensures StepGreeting(s).1 != Close(AuthTooLarge)
  {
  }

  // ---- the bound is reached --------------------------------------------------

  const LONG_GREETING: bytes := [VER, 255] + seq(255, _ => USERPASS)
  const LONG_CREDS := Creds(seq(255, _ => 1), seq(255, _ => 1))
  const LONG_AUTH: bytes := [AUTH_VER, 255] + LONG_CREDS.user + [255] + LONG_CREDS.pass
  const SHORT_REQUEST: bytes := [VER, CONNECT, 0, DOMAIN, 255] + seq(256, _ => 1)

  function AtRequest(requireAuth: bool, buf: bytes): Srv {
    Srv(requireAuth, buf, Request, [], 0, INITIAL_FLAGS)
  }

  lemma LongGreetingTaken(net: Inet)
    ensures Next(net, Init(true).(buf := LONG_GREETING)).0 == Init(true).(phase := Auth)
    ensures Next(net, Init(false).(buf := LONG_GREETING)).0 == AtRequest(false, [])
  {
    var methods := seq(255, _ => USERPASS);
    assert methods[0] == USERPASS;
    GreetingRoundTrip(methods, []);
    assert LONG_GREETING + [] == LONG_GREETING == ClientGreeting(methods).value;
  }

  lemma LongAuthTaken(net: Inet)
    ensures Next(net, Init(true).(phase := Auth, buf := LONG_AUTH)).0 == Init(true).(phase := AuthWait)
  {
    hide UserpassSize, ParseUserpass;
    UserpassRoundTrip(LONG_CREDS, []);
    assert LONG_AUTH + [] == LONG_AUTH == UserpassAuth(LONG_CREDS).value;
  }

  lemma ShortRequestWaits(net: Inet, requireAuth: bool)
    ensures Next(net, AtRequest(requireAuth, SHORT_REQUEST)).1 == NeedData
  {
    hide Lawful, Message, ParseMessage, Answer;
  }

  // The next pull asks for more, n bytes having been received.
  predicate AsksHaving(net: Inet, requireAuth: bool, calls: seq<Call>, n: nat) {
    var (s, log) := Run(net, requireAuth, calls);
    Next(net, s).1 == NeedData && |Received(log)| == n
  }

  // A greeting of 255 methods, credentials of 255 bytes each and a request one byte
  // short of complete: 1031 bytes, or 518 without authentication, and still waiting.
  lemma WaitBoundReached(net: Inet, requireAuth: bool)
    ensures exists calls :: AsksHaving(net, requireAuth, calls, MostReceived(requireAuth))
  {
    hide Next, Run, Lawful;
    LongGreetingTaken(net);
    ShortRequestWaits(net, requireAuth);
    Start(net, requireAuth);
    var c1 := [] + [Receive(LONG_GREETING)];
    RunState(net, requireAuth, [], Receive(LONG_GREETING));
    TotalSnoc([], Receive(LONG_GREETING));
    assert [] + LONG_GREETING == LONG_GREETING && [] + SHORT_REQUEST == SHORT_REQUEST && [] + LONG_AUTH == LONG_AUTH;
    var c2 := c1 + [Pull];
    RunState(net, requireAuth, c1, Pull);
    TotalSnoc(c1, Pull);
    if !requireAuth {
      var c3 := c2 + [Receive(SHORT_REQUEST)];
      RunState(net, requireAuth, c2, Receive(SHORT_REQUEST));
      TotalSnoc(c2, Receive(SHORT_REQUEST));
      ReceivedByCalls(net, requireAuth, c3);
      assert AsksHaving(net, requireAuth, c3, MostReceived(requireAuth));
    } else {
      LongAuthTaken(net);
      AuthWaitPasses(net);
      var c3 := c2 + [Receive(LONG_AUTH)];
      RunState(net, requireAuth, c2, Receive(LONG_AUTH));
      TotalSnoc(c2, Receive(LONG_AUTH));
      var c4 := c3 + [Pull];
      RunState(net, requireAuth, c3, Pull);
      TotalSnoc(c3, Pull);
      var c5 := c4 + [Pull];
      RunState(net, requireAuth, c4, Pull);
      TotalSnoc(c4, Pull);
      var c6 := c5 + [Receive(SHORT_REQUEST)];
      RunState(net, requireAuth, c5, Receive(SHORT_REQUEST));
      TotalSnoc(c5, Receive(SHORT_REQUEST));
      ReceivedByCalls(net, requireAuth, c6);
      assert AsksHaving(net, requireAuth, c6, MostReceived(requireAuth));
    }
  }

  lemma TotalSnoc(calls: seq<Call>, c: Call)
    ensures TotalData(calls + [c]) == TotalData(calls) + (match c case Receive(data) => |data| case _ => 0)
  {
    assert (calls + [c])[..|calls|] == calls;
  }

  lemma Start(net: Inet, requireAuth: bool)
    ensures Run(net, requireAuth, []) == (Init(requireAuth), [])
  {
  }

  lemma AuthWaitPasses(net: Inet)
    ensures Next(net, Init(true).(phase := AuthWait)).0 == AtRequest(true, [])
  {
  }

  function TotalData(calls: seq<Call>): nat {
    if calls == [] then 0
    else
      TotalData(calls[..|calls| - 1]) +
      (match calls[|calls| - 1] case Receive(data) => |data| case _ => 0)
  }

  lemma {:induction false} ReceivedByCalls(net: Inet, requireAuth: bool, calls: seq<Call>)
    ensures |Received(Run(net, requireAuth, calls).1)| == TotalData(calls)
  {
    hide Next, Lawful;
    if calls == [] {
    } else {
      var init := calls[..|calls| - 1];
      ReceivedByCalls(net, requireAuth, init);
      var (s, log) := Run(net, requireAuth, init);
      var x := Act(net, s, calls[|calls| - 1]).1;
      assert (log + [x])[..|log|] == log;
    }
  }
}
