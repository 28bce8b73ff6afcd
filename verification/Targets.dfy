// Where a relay is pointed and which command a session has read, whatever calls were
// made on it: read off the log of calls.
module Targets {
  import opened Wire
  import opened Codec
  import opened CodecLaws
  import opened ServerModel
  import opened ServerGrammar
  import D = Decisions
  import A = AuthGates
  import S = ServerSpec

  // ---- the log ---------------------------------------------------------------

  // The address of the last set_target in a stretch of log, else `asked`.
  function Redirected(log: seq<Entry>, asked: Address): Address {
    if log == [] then asked
    else
      match log[|log| - 1]
      case Did(SetTarget(a)) => a
      case _ => Redirected(log[..|log| - 1], asked)
  }

  predicate IsEvent(x: Entry) {
    x.Got? && !Stutters(x.e)
  }

  // No event is handed out in the stretch.
  predicate Quiet(log: seq<Entry>) {
    forall i :: 0 <= i < |log| ==> !IsEvent(log[i])
  }

  predicate ConnectsAt(log: seq<Entry>, j: int) {
    0 <= j < |log| && log[j].Got? && log[j].e.Connect?
  }

  // The last event is a Connect, and since then the calls have pointed at `up`.
  ghost predicate Pointed(log: seq<Entry>, up: Address) {
    exists j :: ConnectsAt(log, j) && Quiet(log[j + 1..]) && up == Redirected(log[j + 1..], log[j].e.dst)
  }

  // The request was answered by event k, when the calls pointed at `up`.
  predicate AnsweredAt(log: seq<Entry>, k: int) {
    0 <= k < |log| && IsEvent(log[k]) && log[k].e.Send? && Quiet(log[k + 1..])
  }

  ghost predicate Settled(log: seq<Entry>, up: Address) {
    exists k :: AnsweredAt(log, k) && Pointed(log[..k], up)
  }

  lemma QuietSnoc(log: seq<Entry>, x: Entry)
    requires Quiet(log) && !IsEvent(x)
    ensures Quiet(log + [x])
  {
  }

  lemma RedirectedSnoc(log: seq<Entry>, x: Entry, asked: Address)
    ensures Redirected(log + [x], asked)
            == if x.Did? && x.d.SetTarget? then x.d.target else Redirected(log, asked)
  {
    assert (log + [x])[..|log|] == log;
  }

  lemma PointedGrows(log: seq<Entry>, up: Address, x: Entry)
    requires Pointed(log, up) && !IsEvent(x)
    ensures Pointed(log + [x], if x.Did? && x.d.SetTarget? then x.d.target else up)
  {
    var j :| ConnectsAt(log, j) && Quiet(log[j + 1..]) && up == Redirected(log[j + 1..], log[j].e.dst);
    var log' := log + [x];
    assert log'[j + 1..] == log[j + 1..] + [x];
    QuietSnoc(log[j + 1..], x);
    RedirectedSnoc(log[j + 1..], x, log[j].e.dst);
    assert ConnectsAt(log', j);
  }

  lemma PointedStarts(log: seq<Entry>, x: Entry)
    requires x.Got? && x.e.Connect?
    ensures Pointed(log + [x], x.e.dst)
  {
    var log' := log + [x];
    assert ConnectsAt(log', |log|) && log'[|log| + 1..] == [];
  }

  lemma SettledStarts(log: seq<Entry>, up: Address, x: Entry)
    requires Pointed(log, up) && IsEvent(x) && x.e.Send?
    ensures Settled(log + [x], up)
  {
    var log' := log + [x];
    assert log'[..|log|] == log && log'[|log| + 1..] == [];
    assert AnsweredAt(log', |log|);
  }

  lemma SettledGrows(log: seq<Entry>, up: Address, x: Entry)
    requires Settled(log, up) && !IsEvent(x)
    ensures Settled(log + [x], up)
  {
    var k :| AnsweredAt(log, k) && Pointed(log[..k], up);
    var log' := log + [x];
    assert log'[k + 1..] == log[k + 1..] + [x] && log'[..k] == log[..k];
    QuietSnoc(log[k + 1..], x);
    assert AnsweredAt(log', k);
  }

  // ---- the target ------------------------------------------------------------

  ghost predicate Aimed(s: Srv, q: Stage, log: seq<Entry>) {
    && (q.Dialled? ==> s.flags.target.Some? && Pointed(log, s.flags.target.value))
    && (q.Concluding? && s.out != [] && s.out[0].Relay? ==> Settled(log, s.out[0].upstream))
  }

  // What a call does to the target, to the queue and to the command.
  lemma CallMoves(net: Inet, s: Srv, q: Stage, c: Call)
    requires Matches(s, q) && (q.Dialled? ==> s.flags.target.Some?)
    ensures var (t, x) := Act(net, s, c);
            && (!IsEvent(x) ==>
                  && t.out == s.out
                  && t.flags.target == if x.Did? && x.d.SetTarget? then Some(x.d.target) else s.flags.target)
            && (x.Got? && x.e.Connect? ==> t.flags.target == Some(x.e.dst))
            && (q.Dialled? && IsEvent(x) && t.out != [] && t.out[0].Relay? ==>
                  x.e.Send? && t.out[0].upstream == s.flags.target.value)
            && (q.Dialled? && x.Got? && x.e.Relay? ==> x.e.upstream == s.flags.target.value)
            && (q.Concluding? && x.Got? ==> x.e == s.out[0])
  {
    hide Lawful, Message, MessageSize, ParseMessage, ParseGreeting, ParseUserpass, UserpassSize, Removed;
  }

  lemma AimStep(net: Inet, s: Srv, q: Stage, log: seq<Entry>, c: Call)
    requires Matches(s, q) && Aimed(s, q, log)
    requires var (t, x) := Act(net, s, c);
             x.Got? ==> Advance(net, s.requireAuth, q, x.e, x.ate).Some?
    ensures var (t, x) := Act(net, s, c);
            Aimed(t, if x.Got? then Advance(net, s.requireAuth, q, x.e, x.ate).value else q, log + [x])
  {
    hide Pointed, Settled, Act, Matches, Lawful, ParseMessage, WholeGreeting, WholeRequest, IsReply, UserpassAuth;
    var (t, x) := Act(net, s, c);
    CallMoves(net, s, q, c);
    if IsEvent(x) {
      if x.e.Connect? {
        PointedStarts(log, x);
      } else if q.Dialled? && x.e.Send? {
        SettledStarts(log, s.flags.target.value, x);
      }
    } else if q.Dialled? {
      PointedGrows(log, s.flags.target.value, x);
    } else if q.Concluding? && s.out != [] && s.out[0].Relay? {
      SettledGrows(log, s.out[0].upstream, x);
    }
  }

  lemma {:induction false} AimInvariant(net: Inet, requireAuth: bool, calls: seq<Call>)
    ensures var (s, log) := Run(net, requireAuth, calls);
            StageOf(net, requireAuth, log).Some? && Aimed(s, StageOf(net, requireAuth, log).value, log)
  {
    hide Next, Advance, Lawful, Aimed, Matches;
    Grammar(net, requireAuth, calls);
    if calls == [] {
      AimStart(requireAuth);
    } else {
      hide Act;
      var init, c := calls[..|calls| - 1], calls[|calls| - 1];
      var (s, log) := Run(net, requireAuth, init);
      Grammar(net, requireAuth, init);
      AimInvariant(net, requireAuth, init);
      var (t, x) := Act(net, s, c);
      assert (log + [x])[..|log|] == log;
      AimStep(net, s, StageOf(net, requireAuth, log).value, log, c);
    }
  }

  lemma AimStart(requireAuth: bool)
    ensures Aimed(Init(requireAuth), Fresh, [])
  {
  }

  // The event that settled where call i relays: the relay itself, or the reply before it.
  predicate SettledBy(log: seq<Entry>, i: int, k: int) {
    0 <= k <= i < |log| && (k == i || (IsEvent(log[k]) && log[k].e.Send? && Quiet(log[k + 1..i])))
  }

  // Whatever the caller does, a Relay names the address of the last set_target between
  // the Connect and the event that settled it, and without one the address that Connect
  // asked for.
  lemma RelayTarget(net: Inet, requireAuth: bool, calls: seq<Call>, i: nat)
    requires i < |calls|
    ensures var log := Run(net, requireAuth, calls).1;
            && i < |log|
            && (log[i].Got? && log[i].e.Relay? ==>
                  exists k :: SettledBy(log, i, k) && Pointed(log[..k], log[i].e.upstream))
  {
    hide Run, Advance, Matches, Pointed, Act, Quiet;
    A.RunPrefix(net, requireAuth, calls, i);
    A.RunPrefix(net, requireAuth, calls, i + 1);
    var log := Run(net, requireAuth, calls).1;
    var s := Run(net, requireAuth, calls[..i]).0;
    Grammar(net, requireAuth, calls[..i]);
    Grammar(net, requireAuth, calls[..i + 1]);
    AimInvariant(net, requireAuth, calls[..i]);
    assert log[..i + 1][..i] == log[..i];
    assert calls[..i + 1] == calls[..i] + [calls[i]];
    RunSnoc(net, requireAuth, calls[..i], calls[i]);
    if log[i].Got? && log[i].e.Relay? {
      var q := StageOf(net, requireAuth, log[..i]).value;
      CallMoves(net, s, q, calls[i]);
      RelayStage(net, requireAuth, q, log[i].e, log[i].ate);
      if q.Dialled? {
        assert SettledBy(log, i, i);
      } else {
        ConcludingQueue(s);
        var k :| AnsweredAt(log[..i], k) && Pointed(log[..i][..k], log[i].e.upstream);
        assert log[..i][..k] == log[..k] && log[..i][k + 1..] == log[k + 1..i];
        assert SettledBy(log, i, k);
      }
    }
  }

  lemma ConcludingQueue(s: Srv)
    requires Matches(s, Concluding)
    ensures s.out != []
  {
  }

  lemma RelayStage(net: Inet, requireAuth: bool, q: Stage, e: Event, ate: bytes)
    requires e.Relay? && Advance(net, requireAuth, q, e, ate).Some?
    ensures q.Dialled? || q.Concluding?
  {
  }

  // ---- under a driver --------------------------------------------------------

  // A whole stream that ends in a Relay has asked for a connection, and the relay goes
  // where the last set_target among the answers points, or where it was asked for.
  ghost predicate Routed(es: seq<Event>, h: S.Hooks, up: Address) {
    exists f: Flags, cmd, dst ::
      && Connect(cmd, dst) in es && f.target == Some(dst)
      && up == D.Target(h.connect(f, cmd, dst), dst)
  }

  lemma VerdictRoute(net: Inet, f: Flags, ds: seq<Decision>)
    requires f.target.Some?
    ensures var es := S.ConnectVerdict(net, DecideAll(f, ds));
            es != [] && es[|es| - 1].Relay? ==> es[|es| - 1].upstream == D.Target(ds, f.target.value)
  {
    hide Lawful, Message, DecideAll;
    D.CallsRead(f, ds);
  }

  lemma RequestRoute(net: Inet, f: Flags, b: bytes, h: S.Hooks)
    ensures var es := S.RequestSpec(net, f, b, h).events;
            es != [] && es[|es| - 1].Relay? ==> Routed(es, h, es[|es| - 1].upstream)
  {
    hide Lawful, Message, MessageSize, DecideAll, S.ConnectVerdict, AddressAt;
    var es := S.RequestSpec(net, f, b, h).events;
    if es != [] && es[|es| - 1].Relay? {
      var (cmd, dst) := ParseMessage(net, b).value;
      var g := ForConnect(f, dst);
      VerdictRoute(net, g, h.connect(g, cmd, dst));
      assert es[0] == Connect(cmd, dst);
    }
  }

  lemma RoutedBehind(pre: seq<Event>, es: seq<Event>, h: S.Hooks, up: Address)
    requires Routed(es, h, up)
    ensures Routed(pre + es, h, up)
  {
    var f: Flags, cmd, dst :| Connect(cmd, dst) in es && f.target == Some(dst)
                              && up == D.Target(h.connect(f, cmd, dst), dst);
    assert Connect(cmd, dst) in pre + es;
  }

  lemma AuthRoute(net: Inet, f: Flags, b: bytes, h: S.Hooks)
    ensures var es := S.AuthSpec(net, f, b, h).events;
            es != [] && es[|es| - 1].Relay? ==> Routed(es, h, es[|es| - 1].upstream)
  {
    hide Lawful, S.RequestSpec, Routed, ParseUserpass, UserpassSize, DecideAll;
    if ParseUserpass(b).Some? {
      var creds := ParseUserpass(b).value;
      var g := f.(rejected := false);
      var f' := DecideAll(g, h.authorize(g, creds));
      UserpassTaken(b);
      var rest := b[UserpassSize(b).value..];
      var es := S.RequestSpec(net, f', rest, h).events;
      RequestRoute(net, f', rest, h);
      if es != [] && es[|es| - 1].Relay? {
        RoutedBehind([Authorize(creds)] + [Send([AUTH_VER, 0])], es, h, es[|es| - 1].upstream);
        assert [Authorize(creds)] + ([Send([AUTH_VER, 0])] + es) == [Authorize(creds)] + [Send([AUTH_VER, 0])] + es;
      }
    }
  }

  lemma StreamRoute(net: Inet, requireAuth: bool, b: bytes, h: S.Hooks)
    ensures var es := S.Spec(net, requireAuth, b, h).events;
            es != [] && es[|es| - 1].Relay? ==> Routed(es, h, es[|es| - 1].upstream)
  {
    hide Lawful, S.RequestSpec, S.AuthSpec, Routed, ParseGreeting;
    if (b == [] || b[0] == VER) && ParseGreeting(b).Some? {
      GreetingExtent(b, [], 0);
      var rest := b[2 + |ParseGreeting(b).value|..];
      RequestRoute(net, INITIAL_FLAGS, rest, h);
      AuthRoute(net, INITIAL_FLAGS, rest, h);
      var es1, es2 := S.RequestSpec(net, INITIAL_FLAGS, rest, h).events, S.AuthSpec(net, INITIAL_FLAGS, rest, h).events;
      if es1 != [] && es1[|es1| - 1].Relay? {
        RoutedBehind([Send([VER, NO_AUTH])], es1, h, es1[|es1| - 1].upstream);
      }
      if es2 != [] && es2[|es2| - 1].Relay? {
        RoutedBehind([Send([VER, USERPASS])], es2, h, es2[|es2| - 1].upstream);
      }
    }
  }

  // Under any driver, however the bytes arrive, the relay goes where the hook's last
  // set_target points, or where the client asked to go.
  lemma HookedTarget(net: Inet, requireAuth: bool, h: S.Hooks, ops: seq<S.Op>)
    ensures var trace := S.Hooked(net, requireAuth, h, ops).trace;
            trace != [] && trace[|trace| - 1].Relay? ==> Routed(trace, h, trace[|trace| - 1].upstream)
  {
    hide S.Hooked, S.Spec, S.Arrived, Routed;
    var trace := S.Hooked(net, requireAuth, h, ops).trace;
    if trace != [] && trace[|trace| - 1].Relay? {
      S.FinishedIsFinal(net, requireAuth, h, ops, []);
      StreamRoute(net, requireAuth, S.Arrived(ops) + [], h);
    }
  }

  // ---- the command -----------------------------------------------------------

  // The entry consumed a whole request.
  predicate ReadsRequest(x: Entry) {
    x.Got? && |x.ate| >= 2 && (x.e.Connect? || (x.e.Send? && |x.e.data| > 2))
  }

  // The command byte of the last request read; 0 before there is one.
  function Command(log: seq<Entry>): int {
    if log == [] then 0
    else if ReadsRequest(log[|log| - 1]) then log[|log| - 1].ate[1] as int
    else Command(log[..|log| - 1])
  }

  lemma CallCommand(net: Inet, s: Srv, c: Call)
    requires WellFormed(s)
    ensures var (t, x) := Act(net, s, c);
            t.cmd == if ReadsRequest(x) then x.ate[1] as int else s.cmd
  {
    hide StepGreeting, StepAuth, StepAuthWait, StepConnectWait, StepRequest, Lawful, Removed;
    if c.Pull? && s.out == [] {
      match s.phase
      case Greeting => GreetingCommand(net, s);
      case Auth => AuthCommand(net, s);
      case Request => RequestCommand(net, s);
      case AuthWait => WaitCommand(net, s);
      case ConnectWait => WaitCommand(net, s);
      case _ => RemovedFront(s.buf, 0);
    } else {
      RemovedFront(s.buf, 0);
    }
  }

  lemma GreetingCommand(net: Inet, s: Srv)
    requires s.out == [] && s.phase == Greeting
    ensures var (t, e) := Next(net, s); t.cmd == s.cmd && !ReadsRequest(Got(e, Removed(s.buf, t.buf)))
  {
    hide StepAuth, StepAuthWait, StepConnectWait, StepRequest, Lawful, Removed, ParseGreeting;
  }

  lemma AuthCommand(net: Inet, s: Srv)
    requires s.out == [] && s.phase == Auth
    ensures var (t, e) := Next(net, s); t.cmd == s.cmd && !ReadsRequest(Got(e, Removed(s.buf, t.buf)))
  {
    hide StepGreeting, StepAuthWait, StepConnectWait, StepRequest, Lawful, Removed, UserpassSize, ParseUserpass;
  }

  lemma WaitCommand(net: Inet, s: Srv)
    requires s.out == [] && (s.phase == AuthWait || s.phase == ConnectWait)
    ensures var (t, e) := Next(net, s); t.cmd == s.cmd && !ReadsRequest(Got(e, Removed(s.buf, t.buf)))
  {
    hide StepGreeting, StepAuth, StepRequest, Lawful, Message;
  }

  lemma RequestCommand(net: Inet, s: Srv)
    requires s.out == [] && s.phase == Request
    ensures var (t, e) := Next(net, s);
            var x := Got(e, Removed(s.buf, t.buf));
            t.cmd == if ReadsRequest(x) then x.ate[1] as int else s.cmd
  {
    hide StepGreeting, StepAuth, StepAuthWait, StepConnectWait, Lawful, Removed, Message, IsReply, MessageSize;
    hide AddressAt;
    RemovedFront(s.buf, 0);
    AnswerIsReply(net, ATYP_NOT_SUPPORTED, ZERO_ADDRESS);
    AnswerIsReply(net, GENERAL_FAILURE, ZERO_ADDRESS);
    AnswerIsReply(net, CMD_NOT_SUPPORTED, ZERO_ADDRESS);
    ReplyLong(net, CMD_NOT_SUPPORTED);
    if MessageSize(s.buf).Some? && MessageSize(s.buf).value <= |s.buf| {
      RemovedFront(s.buf, MessageSize(s.buf).value);
    }
  }

  lemma ReplyLong(net: Inet, rep: int)
    ensures Message(net, rep, ZERO_ADDRESS).Some? ==> |Message(net, rep, ZERO_ADDRESS).value| > 2
  {
    hide Lawful, AddressBytes;
  }

  // Whatever the caller does, the session's command is that of the request it has read.
  lemma {:induction false} CommandRead(net: Inet, requireAuth: bool, calls: seq<Call>)
    ensures var (s, log) := Run(net, requireAuth, calls); s.cmd == Command(log)
  {
    hide Act, ReadsRequest;
    if calls == [] {
    } else {
      var init := calls[..|calls| - 1];
      var (s, log) := Run(net, requireAuth, init);
      CommandRead(net, requireAuth, init);
      RunWellFormed(net, requireAuth, init);
      CallCommand(net, s, calls[|calls| - 1]);
      var x := Act(net, s, calls[|calls| - 1]).1;
      assert (log + [x])[..|log|] == log;
    }
  }

  lemma RunWellFormed(net: Inet, requireAuth: bool, calls: seq<Call>)
    ensures WellFormed(Run(net, requireAuth, calls).0)
  {
    hide Run;
    Grammar(net, requireAuth, calls);
  }
}
