// A hooked run is a run of calls: what holds after any calls by any caller holds of
// every session under its driver, and so of the server's end of every exchange.
module HookedRuns {
  import opened Wire
  import opened Codec
  import opened ServerModel
  import S = ServerSpec
  import G = ServerGrammar
  import A = AuthGates
  import W = WaitBounds

  // ---- the calls of a hooked run ---------------------------------------------

  function Answers(h: S.Hooks, s: Srv, e: Event): seq<Decision> {
    match e
    case Authorize(creds) => h.authorize(s.flags, creds)
    case Connect(cmd, dst) => h.connect(s.flags, cmd, dst)
    case _ => []
  }

  function Deciding(ds: seq<Decision>): seq<Call> {
    if ds == [] then [] else Deciding(ds[..|ds| - 1]) + [Do(ds[|ds| - 1])]
  }

  function CallsFor(net: Inet, h: S.Hooks, k: S.Config, op: S.Op): seq<Call> {
    match op
    case Arrive(chunk) => [Receive(chunk)]
    case Turn =>
      if S.Finished(k.trace) then []
      else
        var (s, e) := Next(net, k.s);
        [Pull] + Deciding(if Stutters(e) then [] else Answers(h, s, e))
  }

  function Calls(net: Inet, requireAuth: bool, h: S.Hooks, ops: seq<S.Op>): seq<Call> {
    if ops == [] then []
    else
      var init := ops[..|ops| - 1];
      Calls(net, requireAuth, h, init)
      + CallsFor(net, h, S.Hooked(net, requireAuth, h, init), ops[|ops| - 1])
  }

  // The events of a log, without those that leave the session as it was.
  function Events(log: seq<Entry>): seq<Event> {
    if log == [] then []
    else
      Events(log[..|log| - 1]) +
      (match log[|log| - 1] case Got(e, _) => (if Stutters(e) then [] else [e]) case _ => [])
  }

  // A run has reached k, its log tells k's events, and it was given these bytes.
  ghost predicate Reaches(net: Inet, requireAuth: bool, calls: seq<Call>, k: S.Config, arrived: bytes) {
    var (s, log) := Run(net, requireAuth, calls);
    s == k.s && Events(log) == k.trace && G.Received(log) == arrived
  }

  lemma ReachesSnoc(net: Inet, requireAuth: bool, calls: seq<Call>, k: S.Config, arrived: bytes, c: Call)
    requires Reaches(net, requireAuth, calls, k, arrived)
    ensures var (t, x) := Act(net, k.s, c);
            Reaches(net, requireAuth, calls + [c],
                    S.Config(t, k.trace + if x.Got? && !Stutters(x.e) then [x.e] else []),
                    arrived + if x.Took? then x.data else [])
  {
    hide Act;
    RunSnoc(net, requireAuth, calls, c);
    var log := Run(net, requireAuth, calls).1;
    var x := Act(net, k.s, c).1;
    assert (log + [x])[..|log|] == log;
    assert Events(log) + [] == Events(log) && G.Received(log) + [] == G.Received(log);
  }

  lemma {:induction false} DecidingReaches(net: Inet, requireAuth: bool, calls: seq<Call>, k: S.Config,
                                           arrived: bytes, ds: seq<Decision>)
    requires Reaches(net, requireAuth, calls, k, arrived)
    ensures Reaches(net, requireAuth, calls + Deciding(ds), k.(s := k.s.(flags := DecideAll(k.s.flags, ds))), arrived)
  {
    hide Reaches, Decide;
    if ds == [] {
      assert calls + [] == calls;
    } else {
      var init, d := ds[..|ds| - 1], ds[|ds| - 1];
      DecidingReaches(net, requireAuth, calls, k, arrived, init);
      var mid := k.(s := k.s.(flags := DecideAll(k.s.flags, init)));
      ReachesSnoc(net, requireAuth, calls + Deciding(init), mid, arrived, Do(d));
      assert calls + Deciding(ds) == calls + Deciding(init) + [Do(d)];
      assert mid.trace + [] == mid.trace && arrived + [] == arrived;
    }
  }

  lemma RespondDecides(h: S.Hooks, s: Srv, e: Event)
    ensures S.Respond(h, s, e) == s.(flags := DecideAll(s.flags, Answers(h, s, e)))
  {
  }

  lemma TurnReaches(net: Inet, requireAuth: bool, h: S.Hooks, calls: seq<Call>, k: S.Config, arrived: bytes)
    requires Reaches(net, requireAuth, calls, k, arrived)
    ensures Reaches(net, requireAuth, calls + CallsFor(net, h, k, S.Turn), S.PullOnce(net, h, k), arrived)
  {
    hide Reaches, Next, Answers, S.Respond;
    if S.Finished(k.trace) {
      assert calls + [] == calls;
    } else {
      var (s, e) := Next(net, k.s);
      ReachesSnoc(net, requireAuth, calls, k, arrived, Pull);
      assert arrived + [] == arrived && k.trace + [] == k.trace;
      var pulled := S.Config(s, k.trace + if Stutters(e) then [] else [e]);
      var ds := if Stutters(e) then [] else Answers(h, s, e);
      DecidingReaches(net, requireAuth, calls + [Pull], pulled, arrived, ds);
      RespondDecides(h, s, e);
      assert calls + CallsFor(net, h, k, S.Turn) == calls + [Pull] + Deciding(ds);
    }
  }

  // The trace of a hooked run is the stutter-free event log of a run of calls, which
  // ends in the same state having received the same bytes.
  lemma {:induction false} HookedIsRun(net: Inet, requireAuth: bool, h: S.Hooks, ops: seq<S.Op>)
    ensures Reaches(net, requireAuth, Calls(net, requireAuth, h, ops), S.Hooked(net, requireAuth, h, ops),
                    S.Arrived(ops))
  {
    hide Reaches, CallsFor, S.Perform;
    if ops == [] {
      NothingCalled(net, requireAuth);
    } else {
      var init, op := ops[..|ops| - 1], ops[|ops| - 1];
      var k := S.Hooked(net, requireAuth, h, init);
      var calls := Calls(net, requireAuth, h, init);
      HookedIsRun(net, requireAuth, h, init);
      OpReaches(net, requireAuth, h, calls, k, S.Arrived(init), op);
    }
  }

  lemma NothingCalled(net: Inet, requireAuth: bool)
    ensures Reaches(net, requireAuth, [], S.Config(Init(requireAuth), []), [])
  {
  }

  lemma OpReaches(net: Inet, requireAuth: bool, h: S.Hooks, calls: seq<Call>, k: S.Config, arrived: bytes, op: S.Op)
    requires Reaches(net, requireAuth, calls, k, arrived)
    ensures Reaches(net, requireAuth, calls + CallsFor(net, h, k, op), S.Perform(net, h, k, op),
                    arrived + (match op case Arrive(chunk) => chunk case Turn => []))
  {
    hide Reaches, S.PullOnce, Next;
    match op
    case Arrive(chunk) =>
      ReachesSnoc(net, requireAuth, calls, k, arrived, Receive(chunk));
      assert k.trace + [] == k.trace;
    case Turn =>
      hide CallsFor;
      TurnReaches(net, requireAuth, h, calls, k, arrived);
      assert arrived + [] == arrived;
  }

  // ---- what any caller may rely on, under a driver ---------------------------

  // A driver is asked for more only while few bytes have arrived.
  lemma HookedWaits(net: Inet, requireAuth: bool, h: S.Hooks, ops: seq<S.Op>)
    ensures Next(net, S.Hooked(net, requireAuth, h, ops).s).1 == NeedData ==>
              |S.Arrived(ops)| <= W.MostReceived(requireAuth)
  {
    hide S.Hooked, S.Arrived, Run, Next, Calls, Events;
    HookedIsRun(net, requireAuth, h, ops);
    W.WaitBound(net, requireAuth, Calls(net, requireAuth, h, ops));
  }

  predicate LoggedAt(log: seq<Entry>, i: int, e: Event) {
    0 <= i < |log| && log[i].Got? && log[i].e == e
  }

  lemma {:induction false} EventLogged(log: seq<Entry>, e: Event)
    ensures e in Events(log) <==> !Stutters(e) && exists i :: LoggedAt(log, i, e)
  {
    if log == [] {
    } else {
      var init := log[..|log| - 1];
      EventLogged(init, e);
      if e in Events(init) {
        var i :| LoggedAt(init, i, e);
        assert LoggedAt(log, i, e);
      }
      assert !Stutters(e) && LoggedAt(log, |log| - 1, e) ==> e in Events(log);
      forall i | LoggedAt(log, i, e) && i < |log| - 1
        ensures LoggedAt(init, i, e)
      {
      }
    }
  }

  // The i-th event of a trace was logged by call j, and those before it by earlier calls.
  predicate LoggedBy(log: seq<Entry>, i: nat, j: int) {
    && i < |Events(log)|
    && LoggedAt(log, j, Events(log)[i])
    && Events(log[..j]) == Events(log)[..i]
  }

  lemma {:induction false} EventOrigin(log: seq<Entry>, i: nat)
    requires i < |Events(log)|
    ensures exists j :: LoggedBy(log, i, j)
  {
    hide Stutters;
    var init := log[..|log| - 1];
    if i < |Events(init)| {
      EventOrigin(init, i);
      var j :| LoggedBy(init, i, j);
      assert init[..j] == log[..j];
      assert Events(log)[..i] == Events(init)[..i];
      assert LoggedBy(log, i, j);
    } else {
      assert Events(log)[..i] == Events(init);
      assert LoggedBy(log, i, |log| - 1);
    }
  }

  // Under any driver of a session that demands authentication, a Connect or a Relay
  // comes after the question about credentials and after the success answer.
  lemma HookedGate(net: Inet, h: S.Hooks, ops: seq<S.Op>, i: nat)
    requires i < |S.Hooked(net, true, h, ops).trace|
    ensures var trace := S.Hooked(net, true, h, ops).trace;
            trace[i].Connect? || trace[i].Relay? ==>
              && Send([AUTH_VER, 0]) in trace[..i]
              && exists creds :: Authorize(creds) in trace[..i]
  {
    hide S.Hooked, S.Arrived, Run, Calls, Events, A.LastIsReject;
    var calls := Calls(net, true, h, ops);
    var log := Run(net, true, calls).1;
    var trace := S.Hooked(net, true, h, ops).trace;
    HookedIsRun(net, true, h, ops);
    EventOrigin(log, i);
    var n :| LoggedBy(log, i, n);
    G.Grammar(net, true, calls);
    A.AuthGate(net, calls, n);
    if trace[i].Connect? || trace[i].Relay? {
      var j, k :| A.AsksAt(log[..n], j) && A.ClearsAt(log[..n], k) && j < k;
      var creds := log[j].e.creds;
      assert LoggedAt(log[..n], j, Authorize(creds)) && LoggedAt(log[..n], k, Send([AUTH_VER, 0]));
      EventLogged(log[..n], Authorize(creds));
      EventLogged(log[..n], Send([AUTH_VER, 0]));
    }
  }

  // How many events of one kind a trace has.
  function Tally(trace: seq<Event>, kind: G.Kind): nat {
    if trace == [] then 0
    else Tally(trace[..|trace| - 1], kind) + if G.KindOf(trace[|trace| - 1]) == Some(kind) then 1 else 0
  }

  lemma TallySnoc(trace: seq<Event>, e: Event, kind: G.Kind)
    ensures Tally(trace + [e], kind) == Tally(trace, kind) + if G.KindOf(e) == Some(kind) then 1 else 0
  {
    assert (trace + [e])[..|trace|] == trace;
  }

  lemma StuttersNoKind(e: Event)
    ensures Stutters(e) ==> G.KindOf(e) == None
  {
  }

  lemma {:induction false} TallyLogged(log: seq<Entry>, kind: G.Kind)
    ensures Tally(Events(log), kind) == G.Tally(log, kind)
  {
    hide Stutters, G.KindOf, Tally;
    if log == [] {
      NoTally(kind);
    } else {
      var init, x := log[..|log| - 1], log[|log| - 1];
      TallyLogged(init, kind);
      assert Events(init) + [] == Events(init);
      if x.Got? {
        TallySnoc(Events(init), x.e, kind);
        StuttersNoKind(x.e);
      }
    }
  }

  lemma NoTally(kind: G.Kind)
    ensures Tally([], kind) == 0
  {
  }

  // Under any driver each kind of event happens at most once.
  lemma HookedOnce(net: Inet, requireAuth: bool, h: S.Hooks, ops: seq<S.Op>, kind: G.Kind)
    ensures Tally(S.Hooked(net, requireAuth, h, ops).trace, kind) <= 1
  {
    hide S.Hooked, S.Arrived, Run, Calls, Events, Tally;
    var calls := Calls(net, requireAuth, h, ops);
    HookedIsRun(net, requireAuth, h, ops);
    TallyLogged(Run(net, requireAuth, calls).1, kind);
    G.AtMostOnce(net, requireAuth, calls, kind);
  }
}
