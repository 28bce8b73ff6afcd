// The two blocking clients against the answers of a matching server: the same
// outcome, and the same tunnel.
module Agreement {
  import opened Wire
  import opened Codec
  import opened Transcript
  import opened Links
  import opened Clients
  import S = ServerSpec
  import C = ClientModel
  import St = StagedModel
  import E = StagedExchange

  // Neither ran out of time nor was refused by a builder.
  predicate Concluded(r: Outcome) {
    r.Connected? || r.Refused? || r.Broken? || r.Closed?
  }

  // What `connect` returns when the proxy delivers a whole transcript and then tunnel
  // bytes: fixed by the hook answers, whichever client asks; and a client that ends
  // connected hands over exactly the tunnel bytes.
  lemma OutcomesAgree(p: Policy, cmd: int, dst: Address, tunnel: bytes,
                      r1: Outcome, unread1: bytes, r2: Outcome, unread2: bytes)
    requires !TakenOver(p.net, p.creds, cmd, dst, p.h)
    requires tunnel != [] ==> Relayed(Expected(p.net, p.creds, cmd, dst, p.h))
    requires Concluded(r1) && Concluded(r2)
    requires var stream := Sends(Expected(p.net, p.creds, cmd, dst, p.h)) + tunnel;
             && Follows(r1, C.Spec(p.net, p.creds.Some?, stream), unread1)
             && Follows(r2, St.Spec(p.net, p.creds.Some?, stream), unread2)
    ensures r1 == r2
    ensures r1 == (match ExpectedVerdict(p.net, p.creds, cmd, dst, p.h)
                   case Waiting => Outcome.Closed
                   case Failed(e) => Broken(e)
                   case Done(reply) => Finish(reply))
    ensures r1.Connected? ==> unread1 == unread2 == tunnel
  {
    hide Sends, Expected, TakenOver, ExpectedVerdict, Denied, C.Spec, St.Spec;
    var stream := Sends(Expected(p.net, p.creds, cmd, dst, p.h)) + tunnel;
    TranscriptReading(p.net, p.creds, cmd, dst, p.h, tunnel);
    E.ExpectedOpens(p.net, p.creds, cmd, dst, p.h);
    St.SameReading(p.net, p.creds, p.creds, stream);
    E.VerdictCases(p.net, p.creds, cmd, dst, p.h);
  }
}
