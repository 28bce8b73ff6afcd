// Which earlier decisions a session still remembers. The machine resets its flags
// when it asks a question, so decisions taken before the question are forgotten. It
// keeps two: `relay_raw`, which its own later events depend on, and `intercept`, which
// only its driver looks at.
module StaleDecisions {
  import opened Wire
  import opened Codec
  import opened ServerModel
  import G = ServerGrammar

  // The flags with every field blanked that no later event can depend on.
  function LiveFlags(phase: Phase, f: Flags): Flags {
    var blank := INITIAL_FLAGS.(raw := f.raw);
    match phase
    case AuthWait => blank.(rejected := f.rejected)
    case ConnectWait =>
      f.(intercepted := false, rep := if f.rejected || f.failed then f.rep else GENERAL_FAILURE)
    case Relaying => INITIAL_FLAGS
    case Closed => INITIAL_FLAGS
    case _ => blank
  }

  function Live(s: Srv): Srv {
    s.(flags := LiveFlags(s.phase, s.flags), cmd := 0)
  }

  // Two states with the same live part differ in nothing but flags and the command.
  lemma LiveSame(s: Srv, t: Srv)
    requires Live(s) == Live(t)
    ensures t == s.(flags := t.flags, cmd := t.cmd)
    ensures t.flags.raw == s.flags.raw || s.phase == Relaying || s.phase == Closed
  {
  }

  ghost predicate StaysLive(net: Inet, s: Srv, t: Srv) {
    && Next(net, s).1 == Next(net, t).1
    && Live(Next(net, s).0) == Live(Next(net, t).0)
  }

  lemma LiveReading(net: Inet, s: Srv, t: Srv)
    requires Live(s) == Live(t) && s.out == [] && (s.phase == Greeting || s.phase == Auth)
    ensures StaysLive(net, s, t)
  {
    hide StepAuthWait, StepRequest, StepConnectWait;
    hide Lawful, Message, MessageSize, ParseMessage, ParseGreeting, ParseUserpass, UserpassSize;
    LiveSame(s, t);
  }

  // Flags that agree on relay_raw are alike once the connection is asked for, and any
  // are alike once the session is closed.
  lemma LiveConnect(f: Flags, g: Flags, dst: Address)
    ensures f.raw == g.raw ==>
              LiveFlags(ConnectWait, ForConnect(f, dst)) == LiveFlags(ConnectWait, ForConnect(g, dst))
    ensures LiveFlags(Closed, f) == LiveFlags(Closed, g)
  {
  }

  lemma LiveRequest(net: Inet, s: Srv, t: Srv)
    requires Live(s) == Live(t) && s.out == [] && s.phase == Request
    ensures StaysLive(net, s, t)
  {
    hide StepGreeting, StepAuth, StepAuthWait, StepConnectWait, LiveFlags, ForConnect;
    hide Lawful, Message, MessageSize, ParseMessage, ParseGreeting, ParseUserpass, UserpassSize, Answer;
    LiveSame(s, t);
    LiveConnect(s.flags, t.flags, ZERO_ADDRESS);
    forall dst {
      LiveConnect(s.flags, t.flags, dst);
    }
  }

  lemma LiveWaiting(net: Inet, s: Srv, t: Srv)
    requires Live(s) == Live(t) && s.out == [] && (s.phase == AuthWait || s.phase == ConnectWait)
    ensures StaysLive(net, s, t)
  {
    hide StepGreeting, StepAuth, StepRequest;
    hide Lawful, Message, MessageSize, ParseMessage, ParseGreeting, ParseUserpass, UserpassSize, Answer;
    LiveSame(s, t);
  }

  lemma LiveNext(net: Inet, s: Srv, t: Srv)
    requires Live(s) == Live(t)
    ensures StaysLive(net, s, t)
  {
    hide StepGreeting, StepAuth, StepAuthWait, StepRequest, StepConnectWait, Lawful;
    LiveSame(s, t);
    if s.out == [] {
      if s.phase == Greeting || s.phase == Auth {
        LiveReading(net, s, t);
      } else if s.phase == Request {
        LiveRequest(net, s, t);
      } else if s.phase == AuthWait || s.phase == ConnectWait {
        LiveWaiting(net, s, t);
      }
    }
  }

  lemma LiveDecide(phase: Phase, f: Flags, g: Flags, d: Decision)
    requires LiveFlags(phase, f) == LiveFlags(phase, g)
    ensures LiveFlags(phase, Decide(f, d)) == LiveFlags(phase, Decide(g, d))
  {
  }

  lemma LiveDo(s: Srv, t: Srv, d: Decision)
    requires Live(s) == Live(t)
    ensures Live(s.(flags := Decide(s.flags, d))) == Live(t.(flags := Decide(t.flags, d)))
  {
    hide LiveFlags, Decide;
    LiveDecide(s.phase, s.flags, t.flags, d);
  }

  lemma LiveReceive(s: Srv, t: Srv, data: bytes)
    requires Live(s) == Live(t)
    ensures Live(s.(buf := s.buf + data)) == Live(t.(buf := t.buf + data))
  {
  }

  lemma LiveAct(net: Inet, s: Srv, t: Srv, c: Call)
    requires Live(s) == Live(t)
    ensures Live(Act(net, s, c).0) == Live(Act(net, t, c).0)
    ensures Act(net, s, c).1 == Act(net, t, c).1
  {
    hide Next, Live, Decide, Removed;
    match c
    case Receive(data) => LiveReceive(s, t, data);
    case Do(d) => LiveDo(s, t, d);
    case Pull =>
      LiveNext(net, s, t);
      LiveBuffer(s, t);
      LiveBuffer(Next(net, s).0, Next(net, t).0);
  }

  lemma LiveBuffer(s: Srv, t: Srv)
    requires Live(s) == Live(t)
    ensures s.buf == t.buf
  {
  }

  // The events handed out by further calls from a state.
  function Later(net: Inet, s: Srv, calls: seq<Call>): seq<Event>
    decreases |calls|
  {
    if calls == [] then []
    else
      var (t, x) := Act(net, s, calls[0]);
      (if x.Got? then [x.e] else []) + Later(net, t, calls[1..])
  }

  // States that agree on the live part cannot be told apart by any further calls.
  lemma {:induction false} LiveDecidesAll(net: Inet, s: Srv, t: Srv, calls: seq<Call>)
    requires Live(s) == Live(t)
    ensures Later(net, s, calls) == Later(net, t, calls)
    decreases |calls|
  {
    hide Act, Live;
    if calls == [] {
    } else {
      LiveAct(net, s, t, calls[0]);
      LiveDecidesAll(net, Act(net, s, calls[0]).0, Act(net, t, calls[0]).0, calls[1..]);
    }
  }

  // A decision that can have no effect in this state: any but relay_raw outside the
  // two waiting phases, and in `auth_wait` any but ok, reject and relay_raw.
  predicate Dead(s: Srv, d: Decision) {
    match s.phase
    case ConnectWait => d.Intercept?
    case AuthWait => !d.RelayRaw? && !d.Ok? && !d.Reject?
    case Relaying => true
    case Closed => true
    case _ => !d.RelayRaw?
  }

  // Taking a dead decision out of a run changes no later event.
  lemma DeadDecision(net: Inet, s: Srv, d: Decision, calls: seq<Call>)
    requires Dead(s, d)
    ensures Later(net, s, [Do(d)] + calls) == Later(net, s, calls)
  {
    var t := Act(net, s, Do(d)).0;
    assert Live(t) == Live(s);
    LiveDecidesAll(net, t, s, calls);
    assert ([Do(d)] + calls)[1..] == calls;
  }

  // What emitting Connect leaves of the state: everything live is fixed by the
  // policy, the unread bytes, the destination and the sticky flag.
  lemma AfterConnect(net: Inet, s: Srv, e: Event)
    requires s.out == [] && Next(net, s).1 == e && e.Connect?
    ensures var t := Next(net, s).0;
            && t.phase == ConnectWait && t.out == []
            && Live(t) == Srv(s.requireAuth, t.buf, ConnectWait, [], 0,
                              ForConnect(INITIAL_FLAGS, e.dst).(raw := s.flags.raw))
            && t.flags.raw == s.flags.raw
            && t.flags.bound == None && !t.flags.rejected && !t.flags.failed
  {
    hide Lawful, Message, MessageSize, ParseMessage, ParseGreeting, ParseUserpass, UserpassSize, Answer;
    match s.phase
    case Request =>
    case _ =>
  }

  // Two states about to ask for the same connection, with the same bytes left unread:
  // no further calls tell them apart if and only if the sticky flags agree.
  lemma SameConnect(net: Inet, s1: Srv, s2: Srv, e: Event)
    requires s1.out == s2.out == [] && s1.requireAuth == s2.requireAuth
    requires e.Connect? && Next(net, s1).1 == Next(net, s2).1 == e
    requires Next(net, s1).0.buf == Next(net, s2).0.buf
    ensures var t1, t2 := Next(net, s1).0, Next(net, s2).0;
            (forall calls :: Later(net, t1, calls) == Later(net, t2, calls)) <==> s1.flags.raw == s2.flags.raw
  {
    hide Next, Live, Later;
    AfterConnect(net, s1, e);
    AfterConnect(net, s2, e);
    var t1, t2 := Next(net, s1).0, Next(net, s2).0;
    if t1.flags.raw == t2.flags.raw {
      forall calls
        ensures Later(net, t1, calls) == Later(net, t2, calls)
      {
        LiveDecidesAll(net, t1, t2, calls);
      }
    } else {
      RawShows(net, t1);
      RawShows(net, t2);
    }
  }

  // The next pull shows a forgotten relay_raw at once.
  lemma RawShows(net: Inet, t: Srv)
    requires t.phase == ConnectWait && t.out == []
    requires t.flags.bound == None && !t.flags.rejected && !t.flags.failed
    ensures var up := if t.flags.target.Some? then t.flags.target.value else ZERO_ADDRESS;
            Later(net, t, [Pull]) == [if t.flags.raw then Relay(up) else Raised(NoDecision)]
  {
    hide Lawful, Message, StepGreeting, StepAuth, StepAuthWait, StepRequest;
    assert [Pull][1..] == [];
    assert Later(net, Act(net, t, Pull).0, []) == [];
  }

  // ---- whole runs ------------------------------------------------------------

  lemma StickyKept(net: Inet, s: Srv)
    ensures Next(net, s).0.flags.raw == s.flags.raw
    ensures Next(net, s).0.flags.intercepted == s.flags.intercepted
  {
    hide Lawful, Message, MessageSize, ParseMessage, ParseGreeting, ParseUserpass, UserpassSize, Answer;
  }

  lemma StickyDecide(f: Flags, d: Decision)
    ensures Decide(f, d).raw == (f.raw || d == RelayRaw)
    ensures Decide(f, d).intercepted == (f.intercepted || d == Decision.Intercept)
  {
  }

  // The two sticky flags: each is set exactly when its call has been made, whenever
  // that was.
  lemma {:induction false} StickyExactly(net: Inet, requireAuth: bool, calls: seq<Call>)
    ensures Run(net, requireAuth, calls).0.flags.raw <==> Do(RelayRaw) in calls
    ensures Run(net, requireAuth, calls).0.flags.intercepted <==> Do(Intercept) in calls
  {
    hide Next, Act, Decide;
    if calls == [] {
    } else {
      hide Run;
      var init, c := calls[..|calls| - 1], calls[|calls| - 1];
      if c.Do? {
        StickyDecide(Run(net, requireAuth, init).0.flags, c.d);
      }
      StickyExactly(net, requireAuth, init);
      RunState(net, requireAuth, init, c);
      StickyKept(net, Run(net, requireAuth, init).0);
      assert calls == init + [c];
    }
  }

  // Two runs, whatever was called in each, whose next pull asks for the same connection
  // and leaves the same bytes unread: no sequence of further calls tells them apart, if
  // and only if relay_raw had been called in both or in neither.
  lemma StaleDecisionsForgotten(net: Inet, requireAuth: bool, calls1: seq<Call>, calls2: seq<Call>, e: Event)
    requires var s1, s2 := Run(net, requireAuth, calls1).0, Run(net, requireAuth, calls2).0;
             && e.Connect? && Next(net, s1).1 == Next(net, s2).1 == e
             && Next(net, s1).0.buf == Next(net, s2).0.buf
    ensures var t1, t2 := Run(net, requireAuth, calls1 + [Pull]).0, Run(net, requireAuth, calls2 + [Pull]).0;
            (forall calls :: Later(net, t1, calls) == Later(net, t2, calls))
            <==> (Do(RelayRaw) in calls1 <==> Do(RelayRaw) in calls2)
  {
    hide Run, Next, Later;
    RunState(net, requireAuth, calls1, Pull);
    RunState(net, requireAuth, calls2, Pull);
    StickyExactly(net, requireAuth, calls1);
    StickyExactly(net, requireAuth, calls2);
    NothingQueued(net, requireAuth, calls1);
    NothingQueued(net, requireAuth, calls2);
    SameConnect(net, Run(net, requireAuth, calls1).0, Run(net, requireAuth, calls2).0, e);
  }

  lemma NothingQueued(net: Inet, requireAuth: bool, calls: seq<Call>)
    ensures var s := Run(net, requireAuth, calls).0;
            s.requireAuth == requireAuth && (Next(net, s).1.Connect? ==> s.out == [])
  {
    hide Run, Step;
    G.Grammar(net, requireAuth, calls);
  }
}
