// The staged client: it sends each message only after the answer to the one before,
// offers two methods when it has credentials, and reads exactly.
module StagedModel {
  import opened Wire
  import opened Codec
  import opened CodecLaws
  import C = ClientModel

  function Offered(creds: Option<Creds>): bytes {
    if creds.Some? then [USERPASS, NO_AUTH] else [NO_AUTH]
  }

  function Greeting(creds: Option<Creds>): bytes {
    ClientGreeting(Offered(creds)).value
  }

  // What an answer stream means to the staged client.
  function Spec(net: Inet, auth: bool, b: bytes): C.Reading {
    if |b| < 2 then C.Reading(C.Waiting, b)
    else if b[0] != VER then C.Reading(C.Failed(C.MalformedMethod), b)
    else if b[1] == USERPASS && auth then C.AuthSpec(net, b[2..])
    else if b[1] == NO_AUTH then C.ReplySpec(net, b[2..])
    else C.Reading(C.Failed(if b[1] == NO_ACCEPTABLE then C.NoAcceptableMethods else C.UnexpectedMethod(b[1])), b)
  }

  // The messages of one connection attempt, all of which can be built.
  datatype Messages = Messages(greeting: bytes, auth: bytes, req: bytes)

  predicate AuthAsked(auth: bool, b: bytes) {
    |b| >= 2 && b[0] == VER && b[1] == USERPASS && auth
  }

  predicate RequestDue(auth: bool, b: bytes) {
    if AuthAsked(auth, b) then |b| >= 4 && b[2] == AUTH_VER && b[3] == 0
    else |b| >= 2 && b[0] == VER && b[1] == NO_AUTH
  }

  // What the client has sent once it has been given the answers b.
  function Sent(auth: bool, m: Messages, b: bytes): bytes {
    m.greeting
    + (if AuthAsked(auth, b) then m.auth else [])
    + (if RequestDue(auth, b) then m.req else [])
  }

  // More answers only ever make it send more.
  lemma SentGrows(auth: bool, m: Messages, b: bytes, more: bytes)
    ensures Sent(auth, m, b) <= Sent(auth, m, b + more)
  {
    var all := b + more;
    assert forall i :: 0 <= i < |b| ==> all[i] == b[i];
  }

  lemma SpecStable(net: Inet, auth: bool, b: bytes, more: bytes)
    requires Spec(net, auth, b).verdict != C.Waiting
    ensures Spec(net, auth, b + more).verdict == Spec(net, auth, b).verdict
    ensures Spec(net, auth, b).verdict.Done? ==>
              Spec(net, auth, b + more).rest == Spec(net, auth, b).rest + more
  {
    hide C.ReplySpec;
    var all := b + more;
    assert all[0] == b[0] && all[1] == b[1];
    TakeThenMore(b, more, 2);
    C.ReplySpecStable(net, b[2..], more);
    if |b| >= 4 {
      assert all[2] == b[2] && all[3] == b[3];
      TakeThenMore(b[2..], more, 2);
      C.ReplySpecStable(net, b[2..][2..], more);
    }
  }

  // On a stream that opens with a method it offered, the staged client reads what an
  // optimistic client that committed to that method reads.
  lemma SameReading(net: Inet, creds: Option<Creds>, met: Option<Creds>, b: bytes)
    requires met.Some? ==> creds.Some?
    requires |b| >= 2 && b[0] == VER && b[1] == C.Method(met)
    ensures Spec(net, creds.Some?, b) == C.Spec(net, met.Some?, b)
  {
    hide C.ReplySpec, C.AuthSpec;
  }

  // A client that reads byte by byte while it waits never reads past the reply.
  lemma ExactDone(net: Inet, auth: bool, b: bytes, last: byte)
    requires Spec(net, auth, b).verdict == C.Waiting
    requires Spec(net, auth, b + [last]).verdict.Done?
    ensures Spec(net, auth, b + [last]).rest == []
  {
    hide C.ReplySpec, Lawful;
    var all := b + [last];
    if |b| >= 2 {
      TakeThenMore(b, [last], 2);
      assert all[0] == b[0] && all[1] == b[1];
      ReplyExact(net, b[2..], last);
      if |b| >= 4 {
        TakeThenMore(b[2..], [last], 2);
        assert all[2] == b[2] && all[3] == b[3];
        ReplyExact(net, b[2..][2..], last);
      } else {
        assert |all[2..]| < 4;
        if |all[2..]| >= 2 {
          EmptyWaits(net, all[2..][2..]);
        }
      }
    } else {
      EmptyWaits(net, all[2..]);
    }
  }

  lemma EmptyWaits(net: Inet, b: bytes)
    requires |b| < 4
    ensures C.ReplySpec(net, b).verdict == C.Waiting
  {
  }

  lemma ReplyExact(net: Inet, b: bytes, last: byte)
    ensures C.ReplySpec(net, b).verdict == C.Waiting && C.ReplySpec(net, b + [last]).verdict.Done? ==>
              C.ReplySpec(net, b + [last]).rest == []
  {
    hide Lawful, ParseMessage, AddressSize;
    var all := b + [last];
    if MessageSize(b).Some? {
      MessageSizeStable(b, [last]);
    } else if MessageSize(all).Some? {
      SizeFirstKnown(b, last);
    }
  }

  // The byte that makes the length known never completes the message.
  lemma SizeFirstKnown(b: bytes, last: byte)
    requires MessageSize(b).None? && MessageSize(b + [last]).Some?
    ensures |b + [last]| < MessageSize(b + [last]).value
  {
    if |b| >= 4 {
      assert (b + [last])[3] == b[3];
    }
  }
}
