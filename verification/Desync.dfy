// Mismatched auth policies: the pipelined bytes are never taken for something else,
// and the client finds out from the first answer.
module Desync {
  import opened Wire
  import opened Codec
  import opened CodecLaws
  import opened ServerModel
  import opened Transcript
  import opened Links
  import opened Composition
  import E = Exchanges
  import S = ServerSpec
  import C = ClientModel

  predicate Harmless(e: Event) {
    !e.Authorize? && !e.Connect? && !e.Relay?
  }

  // Bytes that do not start with version 5 are never read as a request.
  lemma StrayBytesRefused(net: Inet, f: Flags, b: bytes, h: S.Hooks, e: Event)
    requires b != [] && b[0] != VER && e in S.RequestSpec(net, f, b, h).events
    ensures Harmless(e)
  {
    hide Lawful, Message, AddressSize, S.ConnectVerdict;
  }

  // A pipeline with credentials sent to a server that asks for none.
  lemma UnaskedStory(net: Inet, creds: Creds, cmd: int, dst: Address, h: S.Hooks, early: bytes)
    requires C.Pipeline(net, Some(creds), cmd, dst).Some?
    ensures var es := S.Spec(net, false, C.Pipeline(net, Some(creds), cmd, dst).value + early, h).events;
            && es != [] && es[0] == Send([VER, NO_AUTH])
            && (forall e :: e in es ==> Harmless(e))
  {
    hide Lawful, Message, S.RequestSpec, UserpassAuth, UserpassSize, ParseGreeting, C.Pipeline;
    PipelineParts(net, Some(creds), cmd, dst, early);
    var auth := UserpassAuth(creds).value;
    var rest := auth + (Message(net, cmd, dst).value + early);
    GreetingRoundTrip([C.Method(Some(creds))], rest);
    UserpassRoundTrip(creds, []);
    assert rest[0] == auth[0] == AUTH_VER;
    forall e | e in S.RequestSpec(net, INITIAL_FLAGS, rest, h).events
      ensures Harmless(e)
    {
      StrayBytesRefused(net, INITIAL_FLAGS, rest, h, e);
    }
  }

  // A pipeline without credentials sent to a server that demands them.
  lemma UnmetStory(net: Inet, cmd: int, dst: Address, h: S.Hooks, early: bytes)
    requires C.Pipeline(net, None, cmd, dst).Some?
    ensures S.Spec(net, true, C.Pipeline(net, None, cmd, dst).value + early, h).events
            == [Send([VER, NO_ACCEPTABLE]), Close(NoAcceptableMethod)]
  {
    hide Lawful, Message, S.RequestSpec, S.AuthSpec, UserpassAuth, ParseGreeting, C.Pipeline;
    PipelineParts(net, None, cmd, dst, early);
    GreetingRoundTrip([C.Method(None)], [] + (Message(net, cmd, dst).value + early));
  }

  // Any stream whose batch trace opens with one method answer and has no Relay: the
  // client's answers start with it, and the tunnel stays closed.
  lemma FirstAnswer(p: Policy, sent: bytes, actions: seq<E.Action>, chosen: byte)
    requires var es := S.Spec(p.net, p.requireAuth, sent, p.h).events;
             es != [] && es[0] == Send([VER, chosen]) && (forall e :: e in es ==> Harmless(e))
    ensures var y := Exchange(p, sent, actions);
            && Server(p, y.link).trace <= S.Spec(p.net, p.requireAuth, sent, p.h).events
            && (forall e :: e in Server(p, y.link).trace ==> Harmless(e))
            && y.link.tunnel == []
            && (|Concat(y.chunks)| >= 2 ==> Concat(y.chunks)[..2] == [VER, chosen])
  {
    hide Exchange, S.Hooked, C.Fed, Sends, S.Spec;
    var es := S.Spec(p.net, p.requireAuth, sent, p.h).events;
    var y := Exchange(p, sent, actions);
    Conservation(p, sent, actions);
    S.Refinement(p.net, p.requireAuth, p.h, y.link.ops, y.link.up);
    var trace := Server(p, y.link).trace;
    assert forall e :: e in trace ==> e in es;
    assert trace != [] ==> trace[|trace| - 1] in trace;
    assert y.link.tunnel == [];
    var seen := Concat(y.chunks) + y.link.down;
    assert seen == Sends(trace) + y.link.tunnel;
    if trace == [] {
      NoSends();
    } else {
      SendsFirst(trace, [VER, chosen]);
      assert seen[..2] == [VER, chosen];
    }
  }

  lemma WrongMethod(net: Inet, auth: bool, b: bytes, chosen: byte)
    requires |b| >= 2 ==> b[..2] == [VER, chosen]
    requires chosen != (if auth then USERPASS else NO_AUTH)
    ensures C.Spec(net, auth, b).verdict
            == if |b| < 2 then C.Waiting
               else C.Failed(if chosen == NO_ACCEPTABLE then C.NoAcceptableMethods else C.UnexpectedMethod(chosen))
  {
    if |b| >= 2 {
      assert b[0] == b[..2][0] && b[1] == b[..2][1];
    }
  }

  // In no chunking and no interleaving does a pipeline with credentials make a server
  // without authentication authorize, connect or relay; and the client fails as soon
  // as it has the two bytes of the method answer.
  lemma CredentialsUnasked(p: Policy, cmd: int, dst: Address, early: bytes, actions: seq<E.Action>)
    requires p.creds.Some? && !p.requireAuth && C.Pipeline(p.net, p.creds, cmd, dst).Some?
    ensures var y := Exchange(p, C.Pipeline(p.net, p.creds, cmd, dst).value + early, actions);
            && (forall e :: e in Server(p, y.link).trace ==> Harmless(e))
            && Client(p, y).verdict == if |Concat(y.chunks)| < 2 then C.Waiting
                                       else C.Failed(C.UnexpectedMethod(NO_AUTH))
  {
    hide Exchange, S.Hooked, C.Fed, S.Spec, C.Spec, C.Pipeline;
    var sent := C.Pipeline(p.net, p.creds, cmd, dst).value + early;
    UnaskedStory(p.net, p.creds.value, cmd, dst, p.h, early);
    FirstAnswer(p, sent, actions, NO_AUTH);
    var y := Exchange(p, sent, actions);
    C.ChunkingIndependence(p.net, true, y.chunks);
    WrongMethod(p.net, true, Concat(y.chunks), NO_AUTH);
  }

  // Nor does a pipeline without credentials make an authenticating server authorize,
  // connect or relay; the client fails on the refusal of all methods.
  lemma CredentialsMissing(p: Policy, cmd: int, dst: Address, early: bytes, actions: seq<E.Action>)
    requires p.creds.None? && p.requireAuth && C.Pipeline(p.net, p.creds, cmd, dst).Some?
    ensures var y := Exchange(p, C.Pipeline(p.net, p.creds, cmd, dst).value + early, actions);
            && (forall e :: e in Server(p, y.link).trace ==> Harmless(e))
            && Client(p, y).verdict == if |Concat(y.chunks)| < 2 then C.Waiting
                                       else C.Failed(C.NoAcceptableMethods)
  {
    hide Exchange, S.Hooked, C.Fed, S.Spec, C.Spec, C.Pipeline;
    var sent := C.Pipeline(p.net, p.creds, cmd, dst).value + early;
    UnmetStory(p.net, cmd, dst, p.h, early);
    FirstAnswer(p, sent, actions, NO_ACCEPTABLE);
    var y := Exchange(p, sent, actions);
    C.ChunkingIndependence(p.net, false, y.chunks);
    WrongMethod(p.net, false, Concat(y.chunks), NO_ACCEPTABLE);
  }
}
