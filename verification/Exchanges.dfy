// A client joined to the server's end of a link. On the wire a client is what it does
// given the bytes it has taken: whether it still reads, and what it has sent by then.
// Every run conserves bytes, and every fair schedule comes to rest.
module Exchanges {
  import opened Wire
  import opened Codec
  import opened ServerModel
  import opened Transcript
  import opened Links
  import S = ServerSpec

  // A greedy client takes all that a receive brings; the other reads byte by byte.
  datatype Talker = Talker(waits: bytes -> bool, sent: bytes -> bytes, greedy: bool)

  // The more it has taken the more it has sent, and never more than `total` bytes.
  ghost predicate Steady(t: Talker, total: nat) {
    && (forall seen, more :: t.sent(seen) <= t.sent(seen + more))
    && (forall seen :: |t.sent(seen)| <= total)
  }

  datatype State = State(link: Link, seen: bytes)

  datatype Action =
    | Serve(step: Step)  // the server's end moves
    | Take(n: nat)       // the client receives up to n bytes

  function Start(t: Talker): State {
    State(Fresh(t.sent([])), [])
  }

  // What was sent between two moments.
  function Newly(before: bytes, after: bytes): bytes {
    if before <= after then after[|before|..] else []
  }

  // A client with its verdict reads no more: later bytes belong to the tunnel.
  function Perform(p: Policy, t: Talker, y: State, a: Action): State {
    match a
    case Serve(step) => y.(link := Move(p, y.link, step))
    case Take(n) =>
      if !t.waits(y.seen) then y
      else
        var k := Min(if t.greedy then n else Min(n, 1), |y.link.down|);
        var seen := y.seen + y.link.down[..k];
        State(Exchanged(y.link, k, Newly(t.sent(y.seen), t.sent(seen))), seen)
  }

  function Exchange(p: Policy, t: Talker, actions: seq<Action>): State {
    if actions == [] then Start(t)
    else Perform(p, t, Exchange(p, t, actions[..|actions| - 1]), actions[|actions| - 1])
  }

  lemma ExchangeAppend(p: Policy, t: Talker, actions: seq<Action>, a: Action)
    ensures Exchange(p, t, actions + [a]) == Perform(p, t, Exchange(p, t, actions), a)
  {
    hide Perform;
    assert (actions + [a])[..|actions|] == actions;
  }

  // ---- conservation ----------------------------------------------------------

  ghost predicate Inv(p: Policy, t: Talker, y: State) {
    Balanced(p, t.sent(y.seen), y.seen, y.link)
  }

  lemma PerformKeeps(p: Policy, t: Talker, total: nat, y: State, a: Action)
    requires Steady(t, total) && Inv(p, t, y)
    ensures Inv(p, t, Perform(p, t, y, a))
  {
    hide Balanced, Move;
    match a
    case Serve(step) => MoveBalanced(p, t.sent(y.seen), y.seen, y.link, step);
    case Take(n) =>
      if t.waits(y.seen) {
        var k := Min(if t.greedy then n else Min(n, 1), |y.link.down|);
        var before, after := t.sent(y.seen), t.sent(y.seen + y.link.down[..k]);
        ExchangedBalanced(p, before, y.seen, y.link, k, after[|before|..]);
        assert before + after[|before|..] == after;
      }
  }

  // No byte of either direction is lost, duplicated or reordered.
  lemma {:induction false} Conservation(p: Policy, t: Talker, total: nat, actions: seq<Action>)
    requires Steady(t, total)
    ensures Inv(p, t, Exchange(p, t, actions))
  {
    hide Perform, Balanced;
    if actions == [] {
      FreshBalanced(p, t.sent([]));
    } else {
      var init := actions[..|actions| - 1];
      Conservation(p, t, total, init);
      PerformKeeps(p, t, total, Exchange(p, t, init), actions[|actions| - 1]);
    }
  }

  // ---- work still to do ------------------------------------------------------

  // Nothing more can happen except deliveries nobody needs.
  predicate Quiescent(p: Policy, t: Talker, y: State) {
    Rests(p, y.link) && (y.link.down == [] || !t.waits(y.seen))
  }

  // The action moves bytes or brings an event; tunnel traffic aside.
  predicate Useful(p: Policy, t: Talker, y: State, a: Action) {
    match a
    case Serve(Deliver(n)) => n > 0 && y.link.up != []
    case Serve(PullOne) => !S.Settled(p.net, Server(p, y.link))
    case Serve(Upstream(_)) => false
    case Take(n) => n > 0 && y.link.down != [] && t.waits(y.seen)
  }

  // Everything but tunnel traffic.
  predicate Native(a: Action) {
    a.Serve? ==> !a.step.Upstream?
  }

  // Bytes not yet sent or in flight, and the events still possible, each of which adds at
  // most 262 bytes.
  function Work(p: Policy, t: Talker, total: nat, y: State): int {
    total - |t.sent(y.seen)| + |y.link.up| + |y.link.down| + 263 * (6 - |Server(p, y.link).trace|)
  }

  lemma WorkLeft(p: Policy, t: Talker, total: nat, y: State)
    requires Steady(t, total) && Inv(p, t, y)
    ensures Work(p, t, total, y) >= 0
  {
    hide S.Hooked, S.Spec, Balanced;
    TracePrefix(p, t.sent(y.seen), y.seen, y.link, []);
    S.SpecLength(p.net, p.requireAuth, t.sent(y.seen) + [], p.h);
  }

  // Same bytes in flight and taken, same server: only empty operations apart.
  predicate Alike(p: Policy, y: State, z: State) {
    && z.link.up == y.link.up && z.link.down == y.link.down && z.seen == y.seen
    && Server(p, z.link) == Server(p, y.link)
  }

  // A useful action takes work away; any other changes nothing.
  ghost predicate Progresses(p: Policy, t: Talker, total: nat, y: State, a: Action) {
    var z := Perform(p, t, y, a);
    if Useful(p, t, y, a) then Work(p, t, total, z) < Work(p, t, total, y) else Alike(p, y, z)
  }

  lemma DeliverProgresses(p: Policy, t: Talker, total: nat, y: State, n: nat)
    ensures Progresses(p, t, total, y, Serve(Deliver(n)))
  {
    hide S.Hooked, S.Settled;
    var k := Min(n, |y.link.up|);
    S.HookedSnoc(p.net, p.requireAuth, p.h, y.link.ops, S.Arrive(y.link.up[..k]));
    if k == 0 {
      assert Server(p, y.link).s.buf + [] == Server(p, y.link).s.buf;
    }
  }

  lemma PullProgresses(p: Policy, t: Talker, total: nat, y: State)
    ensures Progresses(p, t, total, y, Serve(PullOne))
  {
    hide S.Hooked, Next, S.Respond, S.Remaining, S.Spec;
    var k := Server(p, y.link);
    S.HookedSnoc(p.net, p.requireAuth, p.h, y.link.ops, S.Turn);
    S.TraceInvariant(p.net, p.requireAuth, p.h, y.link.ops, []);
    if S.Finished(k.trace) {
      assert y.link.down + [] == y.link.down;
    } else {
      S.PullStep(p.net, p.h, k.s, []);
      S.NextBrief(p.net, k.s);
      assert y.link.down + [] == y.link.down;
    }
  }

  lemma TakeProgresses(p: Policy, t: Talker, total: nat, y: State, n: nat)
    requires Steady(t, total)
    ensures Progresses(p, t, total, y, Take(n))
  {
    hide S.Hooked, S.Settled;
    if t.waits(y.seen) {
      var k := Min(if t.greedy then n else Min(n, 1), |y.link.down|);
      var before, after := t.sent(y.seen), t.sent(y.seen + y.link.down[..k]);
      assert before <= after;
      if k == 0 {
        assert y.seen + [] == y.seen && y.link.up + [] == y.link.up;
      }
    }
  }

  lemma ActionProgresses(p: Policy, t: Talker, total: nat, y: State, a: Action)
    requires Steady(t, total) && Native(a)
    ensures Progresses(p, t, total, y, a)
  {
    hide Progresses;
    match a
    case Serve(Deliver(n)) => DeliverProgresses(p, t, total, y, n);
    case Serve(PullOne) => PullProgresses(p, t, total, y);
    case Take(n) => TakeProgresses(p, t, total, y, n);
  }

  lemma AlikeSame(p: Policy, t: Talker, total: nat, y: State, z: State, a: Action)
    requires Alike(p, y, z)
    ensures Useful(p, t, z, a) == Useful(p, t, y, a)
    ensures Work(p, t, total, z) == Work(p, t, total, y)
    ensures Quiescent(p, t, z) == Quiescent(p, t, y)
  {
    hide S.Hooked, S.Settled;
  }

  // How many actions of a run were useful.
  function Efforts(p: Policy, t: Talker, actions: seq<Action>): nat {
    if actions == [] then 0
    else
      var init, a := actions[..|actions| - 1], actions[|actions| - 1];
      Efforts(p, t, init) + if Useful(p, t, Exchange(p, t, init), a) then 1 else 0
  }

  // In any run at all, tunnel traffic included, useful actions are as few as the bytes
  // sent, the six events with their answers, and the tunnel's bytes.
  lemma {:induction false} EffortsBounded(p: Policy, t: Talker, total: nat, actions: seq<Action>)
    requires Steady(t, total)
    ensures var y := Exchange(p, t, actions);
            Efforts(p, t, actions) + Work(p, t, total, y) <= total + 263 * 6 + |y.link.tunnel|
    ensures Efforts(p, t, actions) <= total + 263 * 6 + |Exchange(p, t, actions).link.tunnel|
  {
    hide Perform, Work, Useful;
    Conservation(p, t, total, actions);
    WorkLeft(p, t, total, Exchange(p, t, actions));
    if actions == [] {
      StartWork(p, t, total);
    } else {
      var init, a := actions[..|actions| - 1], actions[|actions| - 1];
      var y := Exchange(p, t, init);
      EffortsBounded(p, t, total, init);
      TunnelGrows(p, t, total, y, a);
      if Native(a) {
        ActionProgresses(p, t, total, y, a);
        if !Useful(p, t, y, a) {
          AlikeSame(p, t, total, y, Perform(p, t, y, a), a);
        }
      }
    }
  }

  lemma StartWork(p: Policy, t: Talker, total: nat)
    ensures Work(p, t, total, Start(t)) == total + 263 * 6
  {
  }

  lemma TunnelGrows(p: Policy, t: Talker, total: nat, y: State, a: Action)
    ensures var z := Perform(p, t, y, a);
            && |z.link.tunnel| >= |y.link.tunnel|
            && (!Native(a) ==>
                  && !Useful(p, t, y, a)
                  && Work(p, t, total, z) <= Work(p, t, total, y) + |z.link.tunnel| - |y.link.tunnel|)
  {
    hide S.Hooked, S.Settled;
  }

  // ---- fair schedules --------------------------------------------------------

  // Each kind of action is given its turn, and the tunnel is quiet.
  ghost predicate Fair(round: seq<Action>) {
    && (forall a :: a in round ==> Native(a))
    && (exists n: nat :: n > 0 && Serve(Deliver(n)) in round)
    && Serve(PullOne) in round
    && (exists n: nat :: n > 0 && Take(n) in round)
  }

  // Short of rest, some action of every fair round is useful.
  lemma SomeUseful(p: Policy, t: Talker, y: State, round: seq<Action>)
    requires Fair(round) && !Quiescent(p, t, y)
    ensures exists a :: a in round && Useful(p, t, y, a)
  {
    hide S.Hooked, S.Settled;
    var n: nat :| n > 0 && Serve(Deliver(n)) in round;
    var m: nat :| m > 0 && Take(m) in round;
    assert Useful(p, t, y, Serve(Deliver(n))) || Useful(p, t, y, Serve(PullOne)) || Useful(p, t, y, Take(m));
  }

  // A stretch of actions with a useful one among them takes work away.
  lemma {:induction false} StretchProgresses(p: Policy, t: Talker, total: nat, actions: seq<Action>,
                                             more: seq<Action>, a: Action)
    requires Steady(t, total) && (forall x :: x in more ==> Native(x))
    ensures var y, z := Exchange(p, t, actions), Exchange(p, t, actions + more);
            && Work(p, t, total, z) <= Work(p, t, total, y)
            && (a in more && Useful(p, t, y, a) ==> Work(p, t, total, z) < Work(p, t, total, y))
            && (Quiescent(p, t, y) ==> Quiescent(p, t, z))
    decreases |more|
  {
    hide Exchange, Perform, Useful, Work, Alike, Quiescent;
    if more == [] {
      assert actions + more == actions;
    } else {
      var y := Exchange(p, t, actions);
      var first := more[0];
      ExchangeAppend(p, t, actions, first);
      var mid := Perform(p, t, y, first);
      ActionProgresses(p, t, total, y, first);
      if !Useful(p, t, y, first) {
        AlikeSame(p, t, total, y, mid, a);
      } else if Quiescent(p, t, y) {
        UsefulAtRest(p, t, y, first);
      }
      StretchProgresses(p, t, total, actions + [first], more[1..], a);
      assert actions + more == actions + [first] + more[1..];
    }
  }

  // At rest only a delivery behind the end of the handshake is useful.
  lemma UsefulAtRest(p: Policy, t: Talker, y: State, a: Action)
    requires Quiescent(p, t, y) && Useful(p, t, y, a)
    ensures Quiescent(p, t, Perform(p, t, y, a))
  {
    hide S.Hooked, Next;
    if a.Serve? && a.step.Deliver? {
      var k := Min(a.step.n, |y.link.up|);
      S.HookedSnoc(p.net, p.requireAuth, p.h, y.link.ops, S.Arrive(y.link.up[..k]));
    }
  }

  function Flatten(rounds: seq<seq<Action>>): seq<Action> {
    if rounds == [] then [] else rounds[0] + Flatten(rounds[1..])
  }

  // Every schedule that gives each kind of action its turn comes to rest, within as many
  // rounds as there is work.
  lemma {:induction false} FairRest(p: Policy, t: Talker, total: nat, actions: seq<Action>,
                                    rounds: seq<seq<Action>>)
    requires Steady(t, total) && (forall round :: round in rounds ==> Fair(round))
    requires Work(p, t, total, Exchange(p, t, actions)) <= |rounds|
    ensures Quiescent(p, t, Exchange(p, t, actions + Flatten(rounds)))
    decreases |rounds|
  {
    hide Exchange, Work, Quiescent, Fair, Useful;
    var y := Exchange(p, t, actions);
    Conservation(p, t, total, actions);
    WorkLeft(p, t, total, y);
    if rounds == [] {
      assert actions + Flatten(rounds) == actions;
      NoWorkRests(p, t, total, y);
    } else {
      var round := rounds[0];
      FairNative(round);
      if Quiescent(p, t, y) {
        QuietRounds(p, t, total, actions, rounds);
      } else {
        SomeUseful(p, t, y, round);
        var a :| a in round && Useful(p, t, y, a);
        StretchProgresses(p, t, total, actions, round, a);
        FairRest(p, t, total, actions + round, rounds[1..]);
        assert actions + Flatten(rounds) == actions + round + Flatten(rounds[1..]);
      }
    }
  }

  lemma FairNative(round: seq<Action>)
    requires Fair(round)
    ensures forall a :: a in round ==> Native(a)
  {
  }

  lemma {:induction false} QuietRounds(p: Policy, t: Talker, total: nat, actions: seq<Action>,
                                       rounds: seq<seq<Action>>)
    requires Steady(t, total) && (forall round :: round in rounds ==> Fair(round))
    requires Quiescent(p, t, Exchange(p, t, actions))
    ensures Quiescent(p, t, Exchange(p, t, actions + Flatten(rounds)))
    decreases |rounds|
  {
    hide Exchange, Quiescent, Fair, Useful, Work;
    if rounds == [] {
      assert actions + Flatten(rounds) == actions;
    } else {
      FairNative(rounds[0]);
      StretchProgresses(p, t, total, actions, rounds[0], Take(0));
      QuietRounds(p, t, total, actions + rounds[0], rounds[1..]);
      assert actions + Flatten(rounds) == actions + rounds[0] + Flatten(rounds[1..]);
    }
  }

  // With no work left there is rest.
  lemma NoWorkRests(p: Policy, t: Talker, total: nat, y: State)
    requires Steady(t, total) && Inv(p, t, y) && Work(p, t, total, y) <= 0
    ensures Quiescent(p, t, y)
  {
    hide Perform, Work, Quiescent, Useful;
    if !Quiescent(p, t, y) {
      RoundRobinFair();
      SomeUseful(p, t, y, ROUND_ROBIN);
      var a :| a in ROUND_ROBIN && Useful(p, t, y, a);
      ActionProgresses(p, t, total, y, a);
      PerformKeeps(p, t, total, y, a);
      WorkLeft(p, t, total, Perform(p, t, y, a));
    }
  }

  const ROUND_ROBIN: seq<Action> := [Serve(Deliver(1)), Serve(PullOne), Take(1)]

  lemma RoundRobinFair()
    ensures Fair(ROUND_ROBIN)
  {
    assert Serve(Deliver(1)) in ROUND_ROBIN && Take(1) in ROUND_ROBIN;
  }

  // From every reachable state some continuation is quiescent.
  lemma QuiescenceReachable(p: Policy, t: Talker, total: nat, actions: seq<Action>)
    requires Steady(t, total)
    ensures exists more :: Quiescent(p, t, Exchange(p, t, actions + more))
  {
    hide Exchange, Work, Quiescent, Fair;
    var y := Exchange(p, t, actions);
    Conservation(p, t, total, actions);
    WorkLeft(p, t, total, y);
    RoundRobinFair();
    var rounds := seq(Work(p, t, total, y), _ => ROUND_ROBIN);
    FairRest(p, t, total, actions, rounds);
  }

  // From any reachable state: as many rounds as there are bytes to send and in the
  // tunnel, and 263 for each event.
  lemma FairRestWithin(p: Policy, t: Talker, total: nat, actions: seq<Action>, rounds: seq<seq<Action>>)
    requires Steady(t, total) && (forall round :: round in rounds ==> Fair(round))
    requires |rounds| >= total + 263 * 6 + |Exchange(p, t, actions).link.tunnel|
    ensures Quiescent(p, t, Exchange(p, t, actions + Flatten(rounds)))
  {
    hide Exchange, Work, Quiescent, Fair, Flatten, Efforts;
    EffortsBounded(p, t, total, actions);
    FairRest(p, t, total, actions, rounds);
  }
}
