// What a session says to whoever goes on pulling after the end.
module Endings {
  import opened Wire
  import opened Codec
  import opened ServerModel
  import opened ServerGrammar

  // The last event of a log, the stutters left out.
  function LastEvent(log: seq<Entry>): Option<Event> {
    if log == [] then None
    else if log[|log| - 1].Got? && !Stutters(log[|log| - 1].e) then Some(log[|log| - 1].e)
    else LastEvent(log[..|log| - 1])
  }

  lemma LastSnoc(log: seq<Entry>, x: Entry)
    ensures LastEvent(log + [x]) == if x.Got? && !Stutters(x.e) then Some(x.e) else LastEvent(log)
  {
    assert (log + [x])[..|log|] == log;
  }

  // A session that has nothing left to say stands where its last event says.
  predicate Parked(s: Srv, last: Option<Event>) {
    && WellFormed(s)
    && (s.out != [] && s.out[0].Relay? ==> s.phase.Relaying?)
    && (s.out != [] && s.out[0].Close? ==> s.phase.Closed?)
    && (last.Some? && last.value.Relay? ==> s.phase.Relaying? && s.out == [])
    && (last.Some? && last.value.Close? ==> s.phase.Closed? && s.out == [])
  }

  ghost predicate PullParks(net: Inet, s: Srv, last: Option<Event>) {
    var (t, e) := Next(net, s);
    Parked(t, if Stutters(e) then last else Some(e))
  }

  lemma ReadingParks(net: Inet, s: Srv, last: Option<Event>)
    requires Parked(s, last) && s.out == [] && (s.phase.Greeting? || s.phase.Auth? || s.phase.AuthWait?)
    ensures PullParks(net, s, last)
  {
    hide StepRequest, StepConnectWait, Lawful, ParseGreeting, ParseUserpass, UserpassSize;
  }

  lemma RequestParks(net: Inet, s: Srv, last: Option<Event>)
    requires Parked(s, last) && s.out == [] && s.phase.Request?
    ensures PullParks(net, s, last)
  {
    hide StepGreeting, StepAuth, StepAuthWait, StepConnectWait, Lawful, Message, MessageSize, ParseMessage, Answer;
    AnswerParts(net, ATYP_NOT_SUPPORTED, ZERO_ADDRESS, Close(UnsupportedAtyp));
    AnswerParts(net, GENERAL_FAILURE, ZERO_ADDRESS, Close(MalformedRequest));
    AnswerParts(net, CMD_NOT_SUPPORTED, ZERO_ADDRESS, Close(CommandNotSupported));
  }

  lemma WaitingParks(net: Inet, s: Srv, last: Option<Event>)
    requires Parked(s, last) && s.out == [] && s.phase.ConnectWait?
    ensures PullParks(net, s, last)
  {
    hide StepGreeting, StepAuth, StepAuthWait, StepRequest, Lawful, Message, Answer;
    var f := s.flags;
    AnswerParts(net, f.rep, ZERO_ADDRESS, Close(RequestRejected));
    AnswerParts(net, f.rep, ZERO_ADDRESS, Close(UpstreamFailed));
    if f.bound.Some? {
      AnswerParts(net, SUCCEEDED, f.bound.value, Relay(if f.target.Some? then f.target.value else f.bound.value));
    }
  }

  // An answer is sent with its last event queued, or raises with nothing queued.
  lemma AnswerParts(net: Inet, rep: int, bound: Address, last: Event)
    ensures var es := Answer(net, rep, bound, last);
            && es != []
            && ((es[0].Send? && es[1..] == [last]) || (es[0] == Raised(Unencodable) && es[1..] == []))
  {
    hide Lawful, Message;
  }

  lemma ParkedStep(net: Inet, s: Srv, last: Option<Event>, c: Call)
    requires Parked(s, last)
    ensures var (t, x) := Act(net, s, c);
            Parked(t, if x.Got? && !Stutters(x.e) then Some(x.e) else last)
  {
    hide StepGreeting, StepAuth, StepAuthWait, StepRequest, StepConnectWait, Removed;
    if c.Pull? && s.out == [] {
      match s.phase
      case Request => RequestParks(net, s, last);
      case ConnectWait => WaitingParks(net, s, last);
      case Relaying =>
      case Closed =>
      case _ => ReadingParks(net, s, last);
    }
  }

  lemma {:induction false} ParkedRun(net: Inet, requireAuth: bool, calls: seq<Call>)
    ensures var (s, log) := Run(net, requireAuth, calls); Parked(s, LastEvent(log))
  {
    hide Parked, Act;
    if calls == [] {
      ParkedStart(requireAuth);
    } else {
      var init, c := calls[..|calls| - 1], calls[|calls| - 1];
      var (s, log) := Run(net, requireAuth, init);
      ParkedRun(net, requireAuth, init);
      ParkedStep(net, s, LastEvent(log), c);
      LastSnoc(log, Act(net, s, c).1);
    }
  }

  lemma ParkedStart(requireAuth: bool)
    ensures Parked(Init(requireAuth), None)
  {
  }

  // Behind a Relay the next pull says that the relay is finished; behind that, and behind
  // any other Close, that the session is closed.
  lemma EndReasons(net: Inet, requireAuth: bool, calls: seq<Call>)
    ensures var (s, log) := Run(net, requireAuth, calls);
            var last, next := LastEvent(log), Next(net, s).1;
            && (last.Some? && last.value.Relay? ==> next == Close(RelayFinished))
            && (last.Some? && last.value.Close? ==> next == Close(AlreadyClosed))
  {
    hide Run, LastEvent, StepGreeting, StepAuth, StepAuthWait, StepRequest, StepConnectWait;
    ParkedRun(net, requireAuth, calls);
  }
}
