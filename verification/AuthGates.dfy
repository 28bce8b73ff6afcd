// With authentication required, no caller and no byte stream gets past the gate.
module AuthGates {
  import opened Wire
  import opened Codec
  import opened ServerModel
  import opened ServerGrammar

  // The last of the Ok and Reject decisions in a stretch of log; none counts as Ok.
  function LastIsReject(log: seq<Entry>): bool {
    if log == [] then false
    else
      match log[|log| - 1]
      case Did(d) => if d.Ok? then false else if d.Reject? then true else LastIsReject(log[..|log| - 1])
      case _ => LastIsReject(log[..|log| - 1])
  }

  predicate AsksAt(log: seq<Entry>, j: int) {
    0 <= j < |log| && log[j].Got? && log[j].e.Authorize?
  }

  predicate ClearsAt(log: seq<Entry>, k: int) {
    0 <= k < |log| && log[k].Got? && log[k].e == Send([AUTH_VER, 0])
  }

  // Credentials were asked about, and success was reported after decisions the last
  // of which was not a rejection.
  ghost predicate Vetted(log: seq<Entry>) {
    exists j, k :: AsksAt(log, j) && ClearsAt(log, k) && j < k && !LastIsReject(log[j + 1..k])
  }

  ghost predicate Pending(log: seq<Entry>, rejected: bool) {
    exists j :: AsksAt(log, j) && LastIsReject(log[j + 1..]) == rejected
  }

  lemma VettedGrows(log: seq<Entry>, x: Entry)
    requires Vetted(log)
    ensures Vetted(log + [x])
  {
    var j, k :| AsksAt(log, j) && ClearsAt(log, k) && j < k && !LastIsReject(log[j + 1..k]);
    assert (log + [x])[j + 1..k] == log[j + 1..k];
    assert AsksAt(log + [x], j) && ClearsAt(log + [x], k);
  }

  lemma PendingGrows(log: seq<Entry>, rejected: bool, x: Entry)
    requires Pending(log, rejected)
    ensures Pending(log + [x],
                    if x.Did? && x.d.Ok? then false else if x.Did? && x.d.Reject? then true else rejected)
    ensures !rejected && x.Got? && x.e == Send([AUTH_VER, 0]) ==> Vetted(log + [x])
  {
    var j :| AsksAt(log, j) && LastIsReject(log[j + 1..]) == rejected;
    var log' := log + [x];
    assert log'[j + 1..] == log[j + 1..] + [x];
    assert log'[j + 1..][..|log'[j + 1..]| - 1] == log[j + 1..];
    assert AsksAt(log', j);
    assert log'[j + 1..|log|] == log[j + 1..];
    if !rejected && x.Got? && x.e == Send([AUTH_VER, 0]) {
      assert ClearsAt(log', |log|);
    }
  }

  lemma PendingStarts(log: seq<Entry>, x: Entry)
    requires x.Got? && x.e.Authorize?
    ensures Pending(log + [x], false)
  {
    var log' := log + [x];
    assert AsksAt(log', |log|) && log'[|log| + 1..] == [];
  }

  ghost predicate Gated(s: Srv, q: Stage, log: seq<Entry>) {
    && (q.Asked? ==> Pending(log, s.flags.rejected))
    && (q.Cleared? || q.Dialled? || q.Concluding? ==> Vetted(log))
  }

  lemma GateStep(net: Inet, s: Srv, q: Stage, log: seq<Entry>, c: Call)
    requires s.requireAuth && Matches(s, q) && Gated(s, q, log)
    requires var (t, x) := Act(net, s, c);
             x.Got? ==> Advance(net, true, q, x.e, x.ate).Some?
    ensures var (t, x) := Act(net, s, c);
            Gated(t, if x.Got? then Advance(net, true, q, x.e, x.ate).value else q, log + [x])
  {
    hide Vetted, Pending, Lawful, Message, ParseMessage, MessageSize, IsReply, WholeGreeting, WholeRequest;
    hide StepGreeting, StepRequest, StepConnectWait, UserpassAuth, Answer;
    var (t, x) := Act(net, s, c);
    if q.Asked? {
      PendingGrows(log, s.flags.rejected, x);
    } else if q.Offered? && x.Got? && x.e.Authorize? {
      PendingStarts(log, x);
    } else if q.Cleared? || q.Dialled? || q.Concluding? {
      VettedGrows(log, x);
    }
  }

  lemma {:induction false} GateInvariant(net: Inet, calls: seq<Call>)
    ensures var (s, log) := Run(net, true, calls);
            StageOf(net, true, log).Some? && Gated(s, StageOf(net, true, log).value, log)
  {
    hide Next, Advance, Lawful, Gated, Matches;
    Grammar(net, true, calls);
    if calls == [] {
      GateStart();
    } else {
      hide Act;
      var init, c := calls[..|calls| - 1], calls[|calls| - 1];
      var (s, log) := Run(net, true, init);
      Grammar(net, true, init);
      GateInvariant(net, init);
      var (t, x) := Act(net, s, c);
      assert (log + [x])[..|log|] == log;
      GateStep(net, s, StageOf(net, true, log).value, log, c);
    }
  }

  lemma GateStart()
    ensures Gated(Init(true), Fresh, [])
  {
  }

  lemma {:induction false} RunPrefix(net: Inet, requireAuth: bool, calls: seq<Call>, i: nat)
    requires i <= |calls|
    ensures |Run(net, requireAuth, calls).1| == |calls|
    ensures Run(net, requireAuth, calls[..i]).1 == Run(net, requireAuth, calls).1[..i]
  {
    hide Act;
    if i == |calls| {
      assert calls[..i] == calls;
      if calls != [] {
        RunPrefix(net, requireAuth, calls[..|calls| - 1], 0);
      }
    } else {
      RunPrefix(net, requireAuth, calls[..|calls| - 1], i);
      assert calls[..|calls| - 1][..i] == calls[..i];
    }
  }

  // With authentication required, every Connect and every Relay, whatever was
  // buffered and whoever called what, comes after an Authorize whose decisions did
  // not end in a rejection and after the success answer that followed them.
  lemma AuthGate(net: Inet, calls: seq<Call>, i: nat)
    requires i < |calls|
    ensures var log := Run(net, true, calls).1;
            && i < |log|
            && (log[i].Got? && (log[i].e.Connect? || log[i].e.Relay?) ==> Vetted(log[..i]))
  {
    hide Run, Advance, Vetted, Matches;
    RunPrefix(net, true, calls, i);
    RunPrefix(net, true, calls, i + 1);
    var log := Run(net, true, calls).1;
    Grammar(net, true, calls[..i + 1]);
    GateInvariant(net, calls[..i]);
    assert log[..i + 1][..i] == log[..i];
    if log[i].Got? && (log[i].e.Connect? || log[i].e.Relay?) {
      GateOpens(net, StageOf(net, true, log[..i]).value, log[i].e, log[i].ate);
    }
  }

  lemma GateOpens(net: Inet, q: Stage, e: Event, ate: bytes)
    requires (e.Connect? || e.Relay?) && Advance(net, true, q, e, ate).Some?
    ensures q.Cleared? || q.Dialled? || q.Concluding?
  {
    hide Lawful;
  }

  // ---- the answer to the credentials -----------------------------------------

  predicate AnswersAuth(x: Entry) {
    x.Got? && (x.e == Send([AUTH_VER, 0]) || x.e == Send([AUTH_VER, 1]))
  }

  // The credentials are answered with success or with rejection according to the last
  // of the ok and reject calls made since they were asked about; with no such call, with
  // success.
  lemma AuthAnswerExact(net: Inet, calls: seq<Call>, i: nat)
    requires i < |calls|
    ensures var log := Run(net, true, calls).1;
            && i < |log|
            && (AnswersAuth(log[i]) ==>
                  exists j :: j < i && AsksAt(log, j)
                              && log[i].e == Send([AUTH_VER, if LastIsReject(log[j + 1..i]) then 1 else 0]))
  {
    hide Run, Advance, Matches, LastIsReject;
    RunPrefix(net, true, calls, i);
    RunPrefix(net, true, calls, i + 1);
    var log := Run(net, true, calls).1;
    var s := Run(net, true, calls[..i]).0;
    Grammar(net, true, calls[..i]);
    Grammar(net, true, calls[..i + 1]);
    GateInvariant(net, calls[..i]);
    assert log[..i + 1][..i] == log[..i];
    assert calls[..i + 1] == calls[..i] + [calls[i]];
    RunSnoc(net, true, calls[..i], calls[i]);
    if AnswersAuth(log[i]) {
      AnswerStage(net, StageOf(net, true, log[..i]).value, log[i].e, log[i].ate);
      AnswerEvent(net, s, calls[i]);
      var j :| AsksAt(log[..i], j) && LastIsReject(log[..i][j + 1..]) == s.flags.rejected;
      assert log[..i][j + 1..] == log[j + 1..i];
      assert AsksAt(log, j);
    }
  }

  // Only the stage that was asked about answers so.
  lemma AnswerStage(net: Inet, q: Stage, e: Event, ate: bytes)
    requires e == Send([AUTH_VER, 0]) || e == Send([AUTH_VER, 1])
    requires Advance(net, true, q, e, ate).Some?
    ensures q.Asked?
  {
    hide Lawful, ParseMessage, ParseGreeting;
  }

  lemma AnswerEvent(net: Inet, s: Srv, c: Call)
    requires Matches(s, Asked)
    ensures var x := Act(net, s, c).1;
            x.Got? ==> x.e == Send([AUTH_VER, if s.flags.rejected then 1 else 0])
  {
    hide StepGreeting, StepAuth, StepRequest, StepConnectWait, Lawful;
  }
}
