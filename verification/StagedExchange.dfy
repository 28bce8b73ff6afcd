// The staged client joined to the same server by the same two queues: it ships each
// message only after the answer to the one before. The main result is that shipping
// everything at once instead changes nothing either side can see.
module StagedExchange {
  import opened Wire
  import opened Codec
  import opened CodecLaws
  import opened ServerModel
  import opened Transcript
  import opened Links
  import E = Exchanges
  import X = Composition
  import S = ServerSpec
  import C = ClientModel
  import St = StagedModel

  function Reading(p: Policy, y: E.State): C.Reading {
    St.Spec(p.net, p.creds.Some?, y.seen)
  }

  function Sent(p: Policy, m: St.Messages, got: bytes): bytes {
    St.Sent(p.creds.Some?, m, got)
  }

  // The exact reader takes bytes while it has no verdict, and sends what falls due. A
  // short read of several bytes is several steps of one byte.
  function Staged(p: Policy, m: St.Messages): E.Talker {
    E.Talker(got => St.Spec(p.net, p.creds.Some?, got).verdict == C.Waiting, got => Sent(p, m, got), false)
  }

  function Exchange(p: Policy, m: St.Messages, actions: seq<E.Action>): E.State {
    E.Exchange(p, Staged(p, m), actions)
  }

  function Whole(m: St.Messages): nat {
    |m.greeting| + |m.auth| + |m.req|
  }

  lemma StagedSteady(p: Policy, m: St.Messages)
    ensures E.Steady(Staged(p, m), Whole(m))
  {
    hide St.Spec, St.Sent;
    forall got, more {
      St.SentGrows(p.creds.Some?, m, got, more);
    }
    forall got {
      SentBound(p, m, got);
    }
  }

  lemma SentBound(p: Policy, m: St.Messages, got: bytes)
    ensures |Sent(p, m, got)| <= Whole(m)
  {
  }

  // Nothing has been read behind the reply.
  ghost predicate Exact(p: Policy, y: E.State) {
    Reading(p, y).verdict.Done? ==> Reading(p, y).rest == []
  }

  ghost predicate Inv(p: Policy, m: St.Messages, y: E.State) {
    && Balanced(p, Sent(p, m, y.seen), y.seen, y.link)
    && Exact(p, y)
  }

  lemma Conservation(p: Policy, m: St.Messages, actions: seq<E.Action>)
    ensures Inv(p, m, Exchange(p, m, actions))
  {
    hide Balanced, E.Exchange, Exact;
    StagedSteady(p, m);
    E.Conservation(p, Staged(p, m), Whole(m), actions);
    NothingBehind(p, m, actions);
  }

  // A client that reads byte by byte has read nothing behind the reply.
  lemma {:induction false} NothingBehind(p: Policy, m: St.Messages, actions: seq<E.Action>)
    ensures Exact(p, Exchange(p, m, actions))
  {
    hide Exact, E.Perform;
    if actions == [] {
      NothingGot(p, Exchange(p, m, []).link);
    } else {
      var init := actions[..|actions| - 1];
      NothingBehind(p, m, init);
      StepExact(p, m, Exchange(p, m, init), actions[|actions| - 1]);
    }
  }

  lemma StepExact(p: Policy, m: St.Messages, y: E.State, a: E.Action)
    requires Exact(p, y)
    ensures Exact(p, E.Perform(p, Staged(p, m), y, a))
  {
    hide St.Spec, Sent, Move;
    assert y.seen + [] == y.seen;
    if y.link.down != [] {
      assert y.link.down[..1] == [y.link.down[0]];
      if Reading(p, y).verdict == C.Waiting && Reading(p, y.(seen := y.seen + [y.link.down[0]])).verdict.Done? {
        St.ExactDone(p.net, p.creds.Some?, y.seen, y.link.down[0]);
      }
    }
  }

  lemma NothingGot(p: Policy, link: Link)
    ensures Exact(p, E.State(link, []))
  {
  }

  // ---- what the server makes of a conversation still under way ----------------

  // The credentials the server asks for: the client's, if it asks for any.
  function Met(p: Policy): Option<Creds> {
    if p.requireAuth then p.creds else None
  }

  // The messages of a connection attempt, against a server that demands no credentials or
  // demands those the client has.
  predicate Attempt(p: Policy, m: St.Messages, cmd: int, dst: Address) {
    && (p.requireAuth ==> p.creds.Some?)
    && m.greeting == St.Greeting(p.creds)
    && Message(p.net, cmd, dst) == Some(m.req)
    && (if Met(p).Some? then UserpassAuth(p.creds.value) == Some(m.auth) else m.auth == [])
  }

  // The credentials message, if it is asked for.
  function AskedFor(p: Policy, m: St.Messages): bytes {
    if p.requireAuth then m.auth else []
  }

  lemma WholeStory(p: Policy, m: St.Messages, cmd: int, dst: Address)
    requires Attempt(p, m, cmd, dst)
    ensures S.Spec(p.net, p.requireAuth, m.greeting + AskedFor(p, m) + m.req, p.h)
            == S.Story(Expected(p.net, Met(p), cmd, dst, p.h), if Denied(Met(p), p.h) then m.req else [])
  {
    hide S.Spec, Expected, Lawful, Message, UserpassAuth, Denied;
    GreetedStory(p.net, Met(p), St.Offered(p.creds), cmd, dst, p.h, []);
    assert m.greeting + (AskedFor(p, m) + (m.req + [])) == m.greeting + AskedFor(p, m) + m.req;
    assert m.req + [] == m.req;
  }

  // The greeting alone leads to the method answer and nothing more.
  lemma GreetingStory(p: Policy, m: St.Messages, cmd: int, dst: Address)
    requires Attempt(p, m, cmd, dst)
    ensures S.Spec(p.net, p.requireAuth, m.greeting, p.h).events == [Send([VER, C.Method(Met(p))])]
  {
    hide Lawful, Message, UserpassAuth, ParseGreeting;
    GreetingRoundTrip(St.Offered(p.creds), []);
    assert m.greeting + [] == m.greeting;
    assert m.greeting[|m.greeting|..] == [];
  }

  // Greeting and credentials lead as far as the answer to the credentials.
  lemma CredentialsStory(p: Policy, m: St.Messages, cmd: int, dst: Address)
    requires Attempt(p, m, cmd, dst) && Met(p).Some?
    ensures S.Spec(p.net, p.requireAuth, m.greeting + AskedFor(p, m), p.h) == S.Story(Opening(Met(p), p.h), [])
  {
    hide Lawful, Message, UserpassAuth, ParseGreeting, UserpassSize, ParseUserpass, AuthFlags;
    GreetingRoundTrip(St.Offered(p.creds), m.auth);
    UserpassRoundTrip(p.creds.value, []);
    assert m.auth + [] == m.auth && m.auth[|m.auth|..] == [];
    AuthFlagsAsked(Met(p), p.h);
  }

  lemma AuthFlagsAsked(creds: Option<Creds>, h: S.Hooks)
    requires creds.Some?
    ensures INITIAL_FLAGS.(rejected := false) == INITIAL_FLAGS
    ensures DecideAll(INITIAL_FLAGS, h.authorize(INITIAL_FLAGS, creds.value)) == AuthFlags(creds, h)
  {
  }

  // Whatever follows the greeting, the server answers the method first.
  lemma MethodFirst(p: Policy, m: St.Messages, cmd: int, dst: Address, rest: bytes)
    requires Attempt(p, m, cmd, dst)
    ensures var es := S.Spec(p.net, p.requireAuth, m.greeting + rest, p.h).events;
            es != [] && es[0] == Send([VER, C.Method(Met(p))])
  {
    hide Lawful, Message, UserpassAuth, ParseGreeting, S.RequestSpec, S.AuthSpec;
    GreetingRoundTrip(St.Offered(p.creds), rest);
  }

  lemma GotMethod(p: Policy, m: St.Messages, cmd: int, dst: Address, y: E.State)
    requires Attempt(p, m, cmd, dst) && Inv(p, m, y)
    ensures |y.seen| >= 2 ==> y.seen[0] == VER && y.seen[1] == C.Method(Met(p))
  {
    hide S.Hooked, S.Spec, Sends, St.Spec, Attempt, St.AuthAsked, St.RequestDue;
    var sent := Sent(p, m, y.seen);
    assert m.greeting <= sent;
    assert sent == m.greeting + sent[|m.greeting|..];
    MethodFirst(p, m, cmd, dst, sent[|m.greeting|..]);
    TracePrefix(p, sent, y.seen, y.link, []);
    assert sent + [] == sent;
    var trace := Server(p, y.link).trace;
    var seen := y.seen + y.link.down;
    assert seen == Sends(trace) + y.link.tunnel;
    if trace == [] {
      NoSends();
    } else {
      SendsFirst(trace, [VER, C.Method(Met(p))]);
      assert seen[..2] == [VER, C.Method(Met(p))];
      assert |y.seen| >= 2 ==> y.seen[0] == seen[..2][0] && y.seen[1] == seen[..2][1];
    }
  }

  lemma SentPrefix(p: Policy, m: St.Messages, cmd: int, dst: Address, got: bytes)
    requires Attempt(p, m, cmd, dst)
    requires |got| >= 2 ==> got[1] == C.Method(Met(p))
    ensures Sent(p, m, got) <= m.greeting + AskedFor(p, m) + m.req
  {
    hide Message, UserpassAuth, Lawful;
  }

  // In every state the server has handed out a prefix of the trace it would give an
  // optimistic client with the credentials it asks for.
  lemma StagedSafety(p: Policy, m: St.Messages, cmd: int, dst: Address, actions: seq<E.Action>)
    requires Attempt(p, m, cmd, dst)
    ensures Server(p, Exchange(p, m, actions).link).trace <= Expected(p.net, Met(p), cmd, dst, p.h)
  {
    hide Exchange, S.Hooked, S.Spec, Expected, Sends, St.Spec, Attempt, St.Sent;
    var y := Exchange(p, m, actions);
    Conservation(p, m, actions);
    WholeStory(p, m, cmd, dst);
    var whole := m.greeting + AskedFor(p, m) + m.req;
    GotMethod(p, m, cmd, dst, y);
    SentPrefix(p, m, cmd, dst, y.seen);
    var sent := Sent(p, m, y.seen);
    TracePrefix(p, sent, y.seen, y.link, whole[|sent|..]);
    assert sent + whole[|sent|..] == whole;
  }

  // ---- both clients at rest ---------------------------------------------------

  predicate Quiescent(p: Policy, y: E.State) {
    && Rests(p, y.link)
    && (y.link.down == [] || Reading(p, y).verdict != C.Waiting)
  }

  // All that a staged attempt ever sends.
  function AllSent(p: Policy, m: St.Messages): bytes {
    m.greeting + AskedFor(p, m) + (if Denied(Met(p), p.h) then [] else m.req)
  }

  // The client cannot be at rest before it has sent all the server will answer to, and
  // the server then holds nothing it has not read.
  lemma RestIsComplete(p: Policy, m: St.Messages, cmd: int, dst: Address, y: E.State)
    requires Attempt(p, m, cmd, dst) && Inv(p, m, y) && Quiescent(p, y)
    ensures Server(p, y.link).trace == Expected(p.net, Met(p), cmd, dst, p.h)
    ensures Sent(p, m, y.seen) == AllSent(p, m)
    ensures Server(p, y.link).s.buf + y.link.up == []
  {
    hide S.Hooked, S.Spec, Sends, Attempt, Expected, S.Settled, Opening, Denied;
    RestStory(p, Sent(p, m, y.seen), y.seen, y.link);
    GotMethod(p, m, cmd, dst, y);
    var auth := p.creds.Some?;
    if St.RequestDue(auth, y.seen) {
      WholeStory(p, m, cmd, dst);
      RequestSent(p, m, cmd, dst, y.seen);
      DueNotDenied(p, m, cmd, dst, y);
    } else if St.AuthAsked(auth, y.seen) {
      CredentialsStory(p, m, cmd, dst);
      assert Sent(p, m, y.seen) == m.greeting + AskedFor(p, m);
      CredentialsRest(p, m, y);
      DeniedExpected(p, cmd, dst);
    } else {
      GreetingStory(p, m, cmd, dst);
      assert Sent(p, m, y.seen) == m.greeting;
      GreetingRest(p, m, y);
    }
  }

  // The request falls due only if the server did not reject the credentials.
  lemma DueNotDenied(p: Policy, m: St.Messages, cmd: int, dst: Address, y: E.State)
    requires Balanced(p, Sent(p, m, y.seen), y.seen, y.link) && St.RequestDue(p.creds.Some?, y.seen)
    requires Server(p, y.link).trace == Expected(p.net, Met(p), cmd, dst, p.h)
    requires y.seen[1] == C.Method(Met(p))
    ensures !Denied(Met(p), p.h)
  {
    hide S.Hooked, S.Arrived, Sends, AuthFlags, RequestEvents, St.Sent;
    OpeningSends(Met(p), p.h);
    var answers := y.seen + y.link.down;
    var rejection: bytes := [VER, USERPASS, AUTH_VER, 1];
    assert Denied(Met(p), p.h) ==> answers == rejection + y.link.tunnel;
    assert (rejection + y.link.tunnel)[3] == 1;
    assert |y.seen| > 3 ==> answers[3] == y.seen[3];
  }

  lemma RequestSent(p: Policy, m: St.Messages, cmd: int, dst: Address, got: bytes)
    requires Attempt(p, m, cmd, dst) && St.RequestDue(p.creds.Some?, got) && got[1] == C.Method(Met(p))
    ensures Sent(p, m, got) == m.greeting + AskedFor(p, m) + m.req
  {
    hide Message, UserpassAuth, Lawful;
  }

  lemma DeniedExpected(p: Policy, cmd: int, dst: Address)
    requires Denied(Met(p), p.h)
    ensures Expected(p.net, Met(p), cmd, dst, p.h) == Opening(Met(p), p.h)
  {
    hide Denied, Opening, RequestEvents;
  }

  // With only the greeting sent there is an answer to read, and reading it makes the
  // client send more.
  lemma GreetingRest(p: Policy, m: St.Messages, y: E.State)
    requires Inv(p, m, y) && Quiescent(p, y)
    requires Server(p, y.link).trace == [Send([VER, C.Method(Met(p))])]
    requires |y.seen| >= 2 ==> y.seen[0] == VER && y.seen[1] == C.Method(Met(p))
    ensures St.AuthAsked(p.creds.Some?, y.seen) || St.RequestDue(p.creds.Some?, y.seen)
  {
    hide S.Hooked, S.Settled, Sends, C.ReplySpec, C.AuthSpec;
    NoSends();
    SendsSnoc([], Send([VER, C.Method(Met(p))]));
    assert [] + [Send([VER, C.Method(Met(p))])] == Server(p, y.link).trace;
    assert y.seen + y.link.down == [VER, C.Method(Met(p))];
  }

  // With the credentials sent, only a rejection lets the client rest.
  lemma CredentialsRest(p: Policy, m: St.Messages, y: E.State)
    requires Inv(p, m, y) && Quiescent(p, y) && Met(p).Some?
    requires Server(p, y.link).trace == Opening(Met(p), p.h)
    requires St.AuthAsked(true, y.seen) && !St.RequestDue(true, y.seen)
    ensures Denied(Met(p), p.h)
  {
    hide S.Hooked, S.Settled, Sends, C.ReplySpec, AuthFlags;
    OpeningSends(Met(p), p.h);
    var accepted: bytes := [VER, USERPASS, AUTH_VER, 0];
    var answers := y.seen + y.link.down;
    assert |answers| == 4 && answers[..|y.seen|] == y.seen;
    assert !Denied(Met(p), p.h) ==> answers == accepted;
    assert y.link.down == [] ==> y.seen == answers;
    assert |y.seen| >= 4 ==> y.seen[2] == answers[2] && y.seen[3] == answers[3];
  }

  // At quiescence the staged conversation is that of an optimistic client with the
  // credentials the server asks for: the same server trace, the verdict the hook answers
  // fix, and after a reply every tunnel byte still on the socket. All the client sent, the
  // server has read. A client whose credentials are not asked for gets through as well.
  lemma StagedQuiescence(p: Policy, m: St.Messages, cmd: int, dst: Address, actions: seq<E.Action>)
    requires Attempt(p, m, cmd, dst) && Quiescent(p, Exchange(p, m, actions))
    ensures var y := Exchange(p, m, actions);
            && Server(p, y.link).trace == Expected(p.net, Met(p), cmd, dst, p.h)
            && Sent(p, m, y.seen) == AllSent(p, m)
            && Server(p, y.link).s.buf + y.link.up == []
            && (!TakenOver(p.net, Met(p), cmd, dst, p.h) ==>
                  && Reading(p, y).verdict == ExpectedVerdict(p.net, Met(p), cmd, dst, p.h)
                  && (Reading(p, y).verdict.Done? ==> y.link.down == y.link.tunnel))
  {
    hide Exchange, S.Hooked, Expected, Sends, TakenOver, ExpectedVerdict, St.Spec, St.Sent, S.Settled, Attempt;
    hide Denied, S.Arrived;
    var y := Exchange(p, m, actions);
    Conservation(p, m, actions);
    RestIsComplete(p, m, cmd, dst, y);
    if !TakenOver(p.net, Met(p), cmd, dst, p.h) {
      TranscriptReading(p.net, Met(p), cmd, dst, p.h, y.link.tunnel);
      ExpectedOpens(p.net, Met(p), cmd, dst, p.h);
      var whole := Sends(Expected(p.net, Met(p), cmd, dst, p.h)) + y.link.tunnel;
      St.SameReading(p.net, p.creds, Met(p), whole);
      if Reading(p, y).verdict == C.Waiting {
        assert y.seen == whole;
      } else {
        St.SpecStable(p.net, p.creds.Some?, y.seen, y.link.down);
        VerdictCases(p.net, Met(p), cmd, dst, p.h);
      }
    }
  }

  lemma VerdictCases(net: Inet, creds: Option<Creds>, cmd: int, dst: Address, h: S.Hooks)
    requires !TakenOver(net, creds, cmd, dst, h)
    ensures Denied(creds, h) ==> ExpectedVerdict(net, creds, cmd, dst, h) == C.Failed(C.AuthDenied(1))
  {
    hide Denied, FinalFlags, AnswerVerdict;
  }

  lemma ExpectedOpens(net: Inet, creds: Option<Creds>, cmd: int, dst: Address, h: S.Hooks)
    ensures var t := Sends(Expected(net, creds, cmd, dst, h));
            |t| >= 2 && t[0] == VER && t[1] == C.Method(creds)
  {
    hide Sends, RequestEvents, Denied;
    var es := Expected(net, creds, cmd, dst, h);
    SendsFirst(es, [VER, C.Method(creds)]);
    assert Sends(es)[..2] == [VER, C.Method(creds)];
  }

  // Shipping the whole pipeline at once, with anything behind it, and waiting for each
  // answer are the same to the server, event for event, and the same to the client,
  // verdict for verdict; behind a reply both hand over exactly the tunnel bytes. What
  // differs is what the server is left holding: the two leave it the same but for the
  // early bytes if and only if the credentials are not rejected, since only the
  // optimistic client has then sent its request.
  lemma OptimisticMeansStaged(p: Policy, m: St.Messages, cmd: int, dst: Address, early: bytes,
                              staged: seq<E.Action>, optimistic: seq<E.Action>)
    requires Attempt(p, m, cmd, dst) && p.requireAuth == p.creds.Some?
    requires C.Pipeline(p.net, p.creds, cmd, dst).Some?
    requires Quiescent(p, Exchange(p, m, staged))
    requires X.Quiescent(p, X.Exchange(p, C.Pipeline(p.net, p.creds, cmd, dst).value + early, optimistic))
    ensures var y := Exchange(p, m, staged);
            var z := X.Exchange(p, C.Pipeline(p.net, p.creds, cmd, dst).value + early, optimistic);
            var unread, heldBack := Server(p, z.link).s.buf + z.link.up, Server(p, y.link).s.buf + y.link.up;
            && Server(p, y.link).trace == Server(p, z.link).trace
            && heldBack == []
            && unread == (if Denied(p.creds, p.h) then m.req else []) + early
            && (unread == heldBack + early <==> !Denied(p.creds, p.h))
            && (!TakenOver(p.net, p.creds, cmd, dst, p.h) ==>
                  && Reading(p, y).verdict == X.Client(p, z).verdict
                  && (Reading(p, y).verdict.Done? && y.link.tunnel == z.link.tunnel ==>
                        y.link.down == X.Client(p, z).c.buf + z.link.down))
  {
    hide Exchange, X.Exchange, Quiescent, X.Quiescent, Expected, TakenOver, ExpectedVerdict, C.Pipeline;
    hide S.Hooked, C.Fed, St.Spec, St.Sent, Denied, AllSent;
    StagedQuiescence(p, m, cmd, dst, staged);
    X.Quiescence(p, cmd, dst, early, optimistic);
    assert [] + early == early;
    MessageNotEmpty(p.net, cmd, dst);
    assert |m.req + early| > |early|;
  }

  lemma MessageNotEmpty(net: Inet, cmd: int, dst: Address)
    ensures Message(net, cmd, dst).Some? ==> Message(net, cmd, dst).value != []
  {
    hide Lawful, AddressBytes;
  }

  // ---- rest is reached, and by every fair schedule ----------------------------

  lemma QuiescentOnWire(p: Policy, m: St.Messages, y: E.State)
    ensures Quiescent(p, y) <==> E.Quiescent(p, Staged(p, m), y)
  {
    hide Rests, St.Spec, St.Sent;
  }

  // From every reachable state some continuation is quiescent: the client never waits
  // for an answer that only comes once it has sent more.
  lemma QuiescenceReachable(p: Policy, m: St.Messages, actions: seq<E.Action>)
    ensures exists more :: Quiescent(p, Exchange(p, m, actions + more))
  {
    hide Quiescent, E.Quiescent, E.Exchange;
    StagedSteady(p, m);
    E.QuiescenceReachable(p, Staged(p, m), Whole(m), actions);
    var more :| E.Quiescent(p, Staged(p, m), E.Exchange(p, Staged(p, m), actions + more));
    QuiescentOnWire(p, m, Exchange(p, m, actions + more));
  }

  // From every reachable state, every schedule that gives each side its turn comes to
  // rest, within as many rounds as there are bytes to send and in the tunnel, and 263 for
  // each of six events.
  lemma FairSchedulesRest(p: Policy, m: St.Messages, actions: seq<E.Action>, rounds: seq<seq<E.Action>>)
    requires forall round :: round in rounds ==> E.Fair(round)
    requires |rounds| >= Whole(m) + 263 * 6 + |Exchange(p, m, actions).link.tunnel|
    ensures Quiescent(p, Exchange(p, m, actions + E.Flatten(rounds)))
  {
    hide Quiescent, E.Quiescent, E.Exchange, E.Fair, E.Flatten;
    StagedSteady(p, m);
    E.FairRestWithin(p, Staged(p, m), Whole(m), actions, rounds);
    QuiescentOnWire(p, m, Exchange(p, m, actions + E.Flatten(rounds)));
  }
}
