// What holds of a server session after any sequence of calls whatsoever: bytes
// received, pulls and decisions in any order, from any caller.
module ServerGrammar {
  import opened Wire
  import opened Codec
  import opened CodecLaws
  import opened ServerModel

  // ---- reading a log ---------------------------------------------------------

  function Received(log: seq<Entry>): bytes {
    if log == [] then []
    else
      Received(log[..|log| - 1]) +
      (match log[|log| - 1] case Took(data) => data case _ => [])
  }

  // Every byte the pulls removed from the buffer, in order.
  function Eaten(log: seq<Entry>): bytes {
    if log == [] then []
    else
      Eaten(log[..|log| - 1]) +
      (match log[|log| - 1] case Got(_, ate) => ate case _ => [])
  }

  // ---- the language of a session ---------------------------------------------

  // How far the conversation has got. Refusing: a refusal is sent, Close must
  // follow. Concluding: the request is answered, Relay or Close must follow.
  datatype Stage = Fresh | Offered | Asked | Cleared | Dialled | Refusing | Concluding | Ended

  function Rank(q: Stage): nat {
    match q
    case Fresh => 0
    case Offered => 1
    case Asked => 2
    case Cleared => 3
    case Dialled => 4
    case Refusing => 5
    case Concluding => 5
    case Ended => 6
  }

  predicate WholeGreeting(m: bytes) {
    ParseGreeting(m).Some? && |m| == 2 + |ParseGreeting(m).value|
  }

  predicate WholeRequest(net: Inet, m: bytes) {
    MessageSize(m) == Some(|m|) && ParseMessage(net, m).Some?
  }

  predicate IsReply(data: bytes) {
    MessageSize(data) == Some(|data|) && data[0] == VER
  }

  // The only events that may come next, what each must have consumed, and where the
  // conversation then stands. None: the event is out of place.
  function Advance(net: Inet, requireAuth: bool, q: Stage, e: Event, ate: bytes): Option<Stage> {
    match e
    case NeedData =>
      if ate == [] && (q.Fresh? || q.Offered? || q.Cleared?) then Some(q) else None
    case Authorize(creds) =>
      if q.Offered? && UserpassAuth(creds) == Some(ate) then Some(Asked) else None
    case Connect(cmd, dst) =>
      if q.Cleared? && cmd == CONNECT && WholeRequest(net, ate) && ParseMessage(net, ate).value == (cmd, dst)
      then Some(Dialled) else None
    case Relay(_) =>
      if ate == [] && (q.Dialled? || q.Concluding?) then Some(Ended) else None
    case Close(_) =>
      if ate == [] && !q.Asked? && !q.Cleared? && !q.Dialled? then Some(Ended) else None
    case Raised(NoDecision) =>
      if ate == [] && q.Dialled? then Some(q) else None
    case Raised(Unencodable) =>
      if ate == [] && q.Dialled? then Some(Ended) else None
    case Send(data) =>
      match q
      case Fresh =>
        if !WholeGreeting(ate) then None
        else if !requireAuth then if data == [VER, NO_AUTH] then Some(Cleared) else None
        else if USERPASS in ParseGreeting(ate).value then
          if data == [VER, USERPASS] then Some(Offered) else None
        else if data == [VER, NO_ACCEPTABLE] then Some(Refusing) else None
      case Asked =>
        if ate != [] then None
        else if data == [AUTH_VER, 0] then Some(Cleared)
        else if data == [AUTH_VER, 1] then Some(Refusing) else None
      case Cleared =>
        if !IsReply(data) || data[1] == 0 then None
        else if ate == [] then Some(Refusing)
        else if WholeRequest(net, ate) && ParseMessage(net, ate).value.0 != CONNECT then Some(Refusing)
        else None
      case Dialled =>
        if ate == [] && IsReply(data) then Some(Concluding) else None
      case _ => None
  }

  function StageOf(net: Inet, requireAuth: bool, log: seq<Entry>): Option<Stage> {
    if log == [] then Some(Fresh)
    else
      match StageOf(net, requireAuth, log[..|log| - 1])
      case None => None
      case Some(q) =>
        match log[|log| - 1]
        case Got(e, ate) => Advance(net, requireAuth, q, e, ate)
        case _ => Some(q)
  }

  // The machine's state at a stage.
  predicate Matches(s: Srv, q: Stage) {
    && WellFormed(s)
    && (match q
        case Fresh => s.phase == Greeting
        case Offered => s.phase == Auth
        case Asked => s.phase == AuthWait
        case Cleared => s.phase == Request
        case Dialled => s.phase == ConnectWait
        case Refusing => s.phase == Closed && s.out != [] && s.out[0].Close?
        case Concluding => s.out != [] && !s.out[0].Raised?
        case Ended => (s.phase == Closed || s.phase == Relaying) && s.out == [])
  }

  ghost predicate Advances(net: Inet, s: Srv, q: Stage) {
    var (t, e) := Next(net, s);
    var q' := Advance(net, s.requireAuth, q, e, Removed(s.buf, t.buf));
    && s.buf == Removed(s.buf, t.buf) + t.buf
    && t.requireAuth == s.requireAuth
    && q'.Some? && Matches(t, q'.value)
  }

  lemma RemovedFront(b: bytes, n: nat)
    requires n <= |b|
    ensures Removed(b, b[n..]) == b[..n]
    ensures b == b[..n] + b[n..]
    ensures Removed(b, b) == []
  {
  }

  lemma GreetingTaken(b: bytes)
    requires ParseGreeting(b).Some?
    ensures var n := 2 + |ParseGreeting(b).value|;
            && n <= |b| && n == 2 + b[1] as int && b[0] == VER
            && WholeGreeting(b[..n]) && ParseGreeting(b[..n]) == ParseGreeting(b)
  {
    var methods := ParseGreeting(b).value;
    GreetingExtent(b, [], 0);
    GreetingRoundTrip(methods, []);
    assert b[..2 + |methods|] + [] == b[..2 + |methods|];
  }

  lemma UserpassTaken(b: bytes)
    ensures ParseUserpass(b).Some? <==> UserpassSize(b).Some?
    ensures UserpassSize(b).Some? ==>
              var n := UserpassSize(b).value;
              n <= |b| && UserpassAuth(ParseUserpass(b).value) == Some(b[..n])
  {
    if UserpassSize(b).Some? {
      UserpassExtent(b, [], 0);
    }
  }

  lemma AdvanceFresh(net: Inet, s: Srv)
    requires s.phase == Greeting && s.out == []
    ensures Advances(net, s, Fresh)
  {
    hide StepAuth, StepAuthWait, StepRequest, StepConnectWait;
    hide Lawful, IsReply, WholeRequest, ParseGreeting, WholeGreeting, Removed, UserpassAuth, ParseMessage;
    RemovedFront(s.buf, 0);
    assert [] + s.buf == s.buf;
    if s.buf != [] && s.buf[0] != VER {
    } else if ParseGreeting(s.buf).Some? {
      AdvanceGreeted(net, s);
    }
  }

  lemma AdvanceGreeted(net: Inet, s: Srv)
    requires s.phase == Greeting && s.out == []
    requires ParseGreeting(s.buf).Some?
    ensures Advances(net, s, Fresh)
  {
    hide StepAuth, StepAuthWait, StepRequest, StepConnectWait;
    hide Lawful, IsReply, WholeRequest, ParseGreeting, WholeGreeting, Removed, UserpassAuth, ParseMessage;
    GreetingTaken(s.buf);
    RemovedFront(s.buf, 2 + s.buf[1] as int);
  }

  lemma AdvanceOffered(net: Inet, s: Srv)
    requires s.phase == Auth && s.out == []
    ensures Advances(net, s, Offered)
  {
    hide StepGreeting, StepAuthWait, StepRequest, StepConnectWait;
    hide Lawful, IsReply, WholeRequest, WholeGreeting, Removed, UserpassSize, ParseUserpass, UserpassAuth;
    RemovedFront(s.buf, 0);
    assert [] + s.buf == s.buf;
    UserpassTaken(s.buf);
    if UserpassSize(s.buf).Some? {
      RemovedFront(s.buf, UserpassSize(s.buf).value);
    }
  }

  lemma AdvanceAsked(net: Inet, s: Srv)
    requires s.phase == AuthWait && s.out == []
    ensures Advances(net, s, Asked)
  {
    hide StepGreeting, StepAuth, StepRequest, StepConnectWait, Lawful, MessageSize, ParseMessage;
    RemovedFront(s.buf, 0);
  }

  // A refusal or an answer that could be built is a whole reply with its REP.
  lemma AnswerIsReply(net: Inet, rep: int, bound: Address)
    ensures var m := Message(net, rep, bound);
            m.Some? ==> IsReply(m.value) && m.value[1] as int == rep
    ensures 0 <= rep < 256 ==> Message(net, rep, ZERO_ADDRESS).Some?
  {
    hide Lawful;
    if Message(net, rep, bound).Some? {
      var m := Message(net, rep, bound).value;
      MessageRoundTrip(net, rep, bound, []);
      assert m + [] == m;
    }
    ZeroEncodable(net);
    MessageBuilds(net, rep, ZERO_ADDRESS);
  }

  lemma AdvanceCleared(net: Inet, s: Srv)
    requires s.phase == Request && s.out == []
    ensures Advances(net, s, Cleared)
  {
    hide StepGreeting, StepAuth, StepAuthWait, StepConnectWait;
    hide Lawful, Message, MessageSize, ParseMessage, IsReply, Answer, Removed;
    hide WholeGreeting, ParseGreeting, UserpassAuth;
    assert [] + s.buf == s.buf;
    RemovedFront(s.buf, 0);
    AnswerIsReply(net, ATYP_NOT_SUPPORTED, ZERO_ADDRESS);
    AnswerIsReply(net, GENERAL_FAILURE, ZERO_ADDRESS);
    AnswerIsReply(net, CMD_NOT_SUPPORTED, ZERO_ADDRESS);
    if MessageSize(s.buf).Some? && MessageSize(s.buf).value <= |s.buf| {
      var n := MessageSize(s.buf).value;
      RemovedFront(s.buf, n);
      ParseMessageExtent(net, s.buf);
    }
  }

  lemma AdvanceDialled(net: Inet, s: Srv)
    requires s.phase == ConnectWait && s.out == []
    ensures Advances(net, s, Dialled)
  {
    hide StepGreeting, StepAuth, StepAuthWait, StepRequest;
    hide Lawful, Message, MessageSize, ParseMessage, IsReply, Answer, Removed;
    hide WholeRequest, WholeGreeting, ParseGreeting, UserpassAuth;
    assert [] + s.buf == s.buf;
    RemovedFront(s.buf, 0);
    AnswerIsReply(net, s.flags.rep, ZERO_ADDRESS);
    if s.flags.bound.Some? {
      AnswerIsReply(net, SUCCEEDED, s.flags.bound.value);
    }
  }

  lemma AdvanceStep(net: Inet, s: Srv, q: Stage)
    requires Matches(s, q)
    ensures Advances(net, s, q)
  {
    hide Advances;
    match q
    case Fresh => AdvanceFresh(net, s);
    case Offered => AdvanceOffered(net, s);
    case Asked => AdvanceAsked(net, s);
    case Cleared => AdvanceCleared(net, s);
    case Dialled => AdvanceDialled(net, s);
    case _ => AdvanceLast(net, s, q);
  }

  lemma AdvanceLast(net: Inet, s: Srv, q: Stage)
    requires Matches(s, q) && Rank(q) >= 5
    ensures Advances(net, s, q)
  {
    hide StepGreeting, StepAuth, StepAuthWait, StepRequest, StepConnectWait, Lawful, Removed;
    RemovedFront(s.buf, 0);
    assert [] + s.buf == s.buf;
  }

  // ---- grammar, conservation -------------------------------------------------

  // After any calls at all: the log is a word of the language, the machine stands
  // where the word says, no byte was lost, duplicated or reordered, and the queue
  // holds at most the one event that ends the handshake.
  lemma {:induction false} Grammar(net: Inet, requireAuth: bool, calls: seq<Call>)
    ensures var (s, log) := Run(net, requireAuth, calls);
            && |log| == |calls|
            && s.requireAuth == requireAuth
            && StageOf(net, requireAuth, log).Some?
            && Matches(s, StageOf(net, requireAuth, log).value)
            && Received(log) == Eaten(log) + s.buf
  {
    hide Next, Advance, Lawful, Matches, Removed;
    if calls == [] {
      InitMatches(requireAuth);
    } else {
      hide Init, Act;
      var init, c := calls[..|calls| - 1], calls[|calls| - 1];
      var (s, log) := Run(net, requireAuth, init);
      Grammar(net, requireAuth, init);
      var (t, x) := Act(net, s, c);
      assert (log + [x])[..|log|] == log;
      GrammarStep(net, s, log, c);
    }
  }

  lemma InitMatches(requireAuth: bool)
    ensures Matches(Init(requireAuth), Fresh)
  {
  }

  lemma GrammarStep(net: Inet, s: Srv, log: seq<Entry>, c: Call)
    requires StageOf(net, s.requireAuth, log).Some? && Matches(s, StageOf(net, s.requireAuth, log).value)
    requires Received(log) == Eaten(log) + s.buf
    ensures var (t, x) := Act(net, s, c);
            && t.requireAuth == s.requireAuth
            && StageOf(net, s.requireAuth, log + [x]).Some?
            && Matches(t, StageOf(net, s.requireAuth, log + [x]).value)
            && Received(log + [x]) == Eaten(log + [x]) + t.buf
  {
    hide Next, Advance, Lawful, Matches, Removed;
    var (t, x) := Act(net, s, c);
    var q := StageOf(net, s.requireAuth, log).value;
    assert (log + [x])[..|log|] == log;
    match c
    case Receive(data) =>
      assert Eaten(log) + s.buf + data == Eaten(log) + (s.buf + data);
      assert Eaten(log) + [] == Eaten(log);
      MatchesKept(s, t, q);
    case Do(d) =>
      assert Eaten(log) + [] == Eaten(log) && Received(log) + [] == Received(log);
      MatchesKept(s, t, q);
    case Pull =>
      AdvanceStep(net, s, q);
      assert Received(log) + [] == Received(log);
      assert Eaten(log) + (x.ate + t.buf) == Eaten(log) + x.ate + t.buf;
  }

  lemma MatchesKept(s: Srv, t: Srv, q: Stage)
    requires Matches(s, q) && t.phase == s.phase && t.out == s.out
    ensures Matches(t, q)
  {
  }

  // ---- at most one of each, and nothing after the end ------------------------

  datatype Kind = MethodAnswer | AuthAsked | AuthAnswer | ConnectAsked | RequestAnswer | RelayStarted

  function KindOf(e: Event): Option<Kind> {
    match e
    case Send(data) =>
      if |data| != 2 then Some(RequestAnswer)
      else if data[0] == VER then Some(MethodAnswer) else Some(AuthAnswer)
    case Authorize(_) => Some(AuthAsked)
    case Connect(_, _) => Some(ConnectAsked)
    case Relay(_) => Some(RelayStarted)
    case _ => None
  }

  // The earliest rank a conversation can have once an event of kind k was seen.
  function KindRank(k: Kind): nat {
    match k
    case MethodAnswer => 1
    case AuthAsked => 2
    case AuthAnswer => 3
    case ConnectAsked => 4
    case RequestAnswer => 5
    case RelayStarted => 6
  }

  function Tally(log: seq<Entry>, k: Kind): nat {
    if log == [] then 0
    else
      Tally(log[..|log| - 1], k) +
      (match log[|log| - 1] case Got(e, _) => (if KindOf(e) == Some(k) then 1 else 0) case _ => 0)
  }

  lemma {:induction false} TallyBound(net: Inet, requireAuth: bool, log: seq<Entry>, k: Kind)
    requires StageOf(net, requireAuth, log).Some?
    ensures Tally(log, k) <= if Rank(StageOf(net, requireAuth, log).value) >= KindRank(k) then 1 else 0
  {
    hide Lawful, ParseMessage, ParseGreeting, UserpassAuth, AddressSize;
    if log == [] {
    } else {
      TallyBound(net, requireAuth, log[..|log| - 1], k);
    }
  }

  // Whatever the caller does, each kind of event happens at most once in a session.
  lemma AtMostOnce(net: Inet, requireAuth: bool, calls: seq<Call>, k: Kind)
    ensures Tally(Run(net, requireAuth, calls).1, k) <= 1
  {
    hide Run, StageOf, Tally;
    Grammar(net, requireAuth, calls);
    TallyBound(net, requireAuth, Run(net, requireAuth, calls).1, k);
  }

  predicate EndsIt(x: Entry) {
    x.Got? && Terminal(x.e)
  }

  lemma {:induction false} EndedStays(net: Inet, requireAuth: bool, log: seq<Entry>, i: nat)
    requires StageOf(net, requireAuth, log).Some?
    requires i < |log| && EndsIt(log[i])
    ensures StageOf(net, requireAuth, log) == Some(Ended)
    ensures forall j :: i < j < |log| && log[j].Got? ==> log[j].e.Close?
  {
    hide Lawful, ParseMessage, ParseGreeting, UserpassAuth, AddressSize, MessageSize;
    var init := log[..|log| - 1];
    if i < |log| - 1 {
      EndedStays(net, requireAuth, init, i);
      assert forall j :: i < j < |init| ==> log[j] == init[j];
    }
  }

  // Only Close follows a Relay, a Close or a failed answer.
  lemma NothingAfterTheEnd(net: Inet, requireAuth: bool, calls: seq<Call>, i: nat, j: nat)
    requires var log := Run(net, requireAuth, calls).1;
             i < j < |log| && EndsIt(log[i]) && log[j].Got?
    ensures Run(net, requireAuth, calls).1[j].e.Close?
  {
    hide Run, StageOf;
    Grammar(net, requireAuth, calls);
    EndedStays(net, requireAuth, Run(net, requireAuth, calls).1, i);
  }
}
