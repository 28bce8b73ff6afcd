// The protocol in numbers: which bytes make the server give which answer, which bytes
// make a client give up and why, and one whole exchange written out.
module ByteTables {
  import opened Wire
  import opened Codec
  import opened CodecLaws
  import opened ServerModel
  import opened Transcript
  import D = Decisions
  import S = ServerSpec
  import C = ClientModel
  import St = StagedModel

  // ---- the server's answers --------------------------------------------------

  // A refusal: version, code, reserved, then IPv4 0.0.0.0 and port 0.
  function Refusal(rep: byte): bytes {
    [5, rep, 0, 1, 0, 0, 0, 0, 0, 0]
  }

  lemma RefusalBuilt(net: Inet, rep: byte)
    ensures Message(net, rep as int, ZERO_ADDRESS) == Some(Refusal(rep))
  {
    hide Message;
    var z: bytes := [0, 0, 0, 0];
    assert |z| == 4;
    assert net.pton4(net.ntop4(z)) == Some(z);
    ZeroEncodable(net);
    MessageBuilds(net, rep as int, ZERO_ADDRESS);
    MessageLayout(net, rep as int, ZERO_ADDRESS);
    var m := Message(net, rep as int, ZERO_ADDRESS).value;
    assert m[4..8] == z;
    assert forall i :: 4 <= i < 8 ==> m[i] == m[4..8][i - 4];
    assert m == Refusal(rep);
  }

  // A greeting is met with a bare close if its version is not 5; it is answered once all
  // its methods are there: 0 without authentication, 2 with it if 2 is offered, and else
  // 255 and a close.
  lemma GreetingAnswers(net: Inet, requireAuth: bool, b: bytes, h: S.Hooks)
    ensures var es := S.Spec(net, requireAuth, b, h).events;
            if b != [] && b[0] != 5 then es == [Close(BadVersion)]
            else if |b| < 2 || |b| < 2 + b[1] as int then es == []
            else if !requireAuth then es != [] && es[0] == Send([5, 0])
            else if 2 in b[2..2 + b[1] as int] then es != [] && es[0] == Send([5, 2])
            else es == [Send([5, 255]), Close(NoAcceptableMethod)]
  {
    hide S.RequestSpec, S.AuthSpec, Lawful;
    if ParseGreeting(b).Some? {
      GreetingExtent(b, [], 0);
    }
  }

  // A credentials message is asked about once it is all there, and the hook's answer
  // decides between 1, 1 with a close and 1, 0; a message of another version is not
  // answered, and closes the session once it is over 513 bytes.
  lemma CredentialsAnswers(net: Inet, f: Flags, b: bytes, h: S.Hooks)
    ensures var es := S.AuthSpec(net, f, b, h).events;
            if b == [] then es == []
            else if b[0] != 1 then es == if |b| > 513 then [Close(AuthTooLarge)] else []
            else if |b| < 2 || |b| < 3 + b[1] as int || |b| < 3 + b[1] as int + b[2 + b[1] as int] as int then es == []
            else
              var u := b[1] as int;
              var creds := Creds(b[2..2 + u], b[3 + u..3 + u + b[2 + u] as int]);
              var g := f.(rejected := false);
              && |es| >= 2 && es[0] == Authorize(creds)
              && if D.Rejects(h.authorize(g, creds), false) then es[1..] == [Send([1, 1]), Close(AuthRejected)]
                 else es[1] == Send([1, 0])
  {
    hide S.RequestSpec, Lawful, DecideAll;
    if UserpassSize(b).Some? {
      var g := f.(rejected := false);
      D.CallsRead(g, h.authorize(g, ParseUserpass(b).value));
    } else if |b| > 513 {
      UserpassStuck(b, []);
    }
  }

  // The length of a request or reply, in numbers: 10 and 22 for the two kinds of address,
  // 7 more than the length byte for a name. None: its kind is none of these, or unknown
  // yet.
  function Length(b: bytes): Option<nat> {
    if |b| < 4 then None
    else if b[3] == 1 then Some(10)
    else if b[3] == 4 then Some(22)
    else if b[3] == 3 && |b| >= 5 then Some(7 + b[4] as nat)
    else None
  }

  lemma LengthIsSize(b: bytes)
    ensures Length(b) == MessageSize(b)
  {
  }

  // A request is answered 8 once five bytes show an address type that is not 1, 3 or 4;
  // complete, it is answered 1 if its version is not 5, and 7 if its command is not 1, and
  // otherwise leads to Connect; until then it is not answered.
  lemma RequestAnswers(net: Inet, f: Flags, b: bytes, h: S.Hooks)
    ensures var es := S.RequestSpec(net, f, b, h).events;
            if |b| >= 5 && b[3] != 1 && b[3] != 3 && b[3] != 4 then
              es == [Send(Refusal(8)), Close(UnsupportedAtyp)]
            else if Length(b).None? || |b| < Length(b).value then es == []
            else if b[0] != 5 then es == [Send(Refusal(1)), Close(MalformedRequest)]
            else if b[1] != 1 then es == [Send(Refusal(7)), Close(CommandNotSupported)]
            else es != [] && es[0].Connect? && es[0].cmd == 1
  {
    hide Message, Lawful, S.ConnectVerdict, AddressAt, Refusal;
    LengthIsSize(b);
    RefusalBuilt(net, 8);
    RefusalBuilt(net, 1);
    RefusalBuilt(net, 7);
    ParseMessageExtent(net, b);
  }

  // ---- what makes the clients give up ----------------------------------------

  // Where the reply starts in what the optimistic client reads.
  function ReplyAt(auth: bool): nat {
    if auth then 4 else 2
  }

  // The answers in front of the reply are those of success.
  predicate Cleared(auth: bool, b: bytes) {
    && |b| >= ReplyAt(auth) && b[0] == 5
    && if auth then b[1] == 2 && b[2] == 1 && b[3] == 0 else b[1] == 0
  }

  // A reply's fate: an address type that is not 1, 3 or 4; complete with another version;
  // complete, and then its code is its second byte.
  lemma ReplyFate(net: Inet, r: bytes)
    ensures var verdict := C.ReplySpec(net, r).verdict;
            if |r| >= 4 && r[3] != 1 && r[3] != 3 && r[3] != 4 then verdict == C.Failed(C.UnknownAtyp(r[3]))
            else if Length(r).None? || |r| < Length(r).value then verdict == C.Waiting
            else if r[0] != 5 then verdict == C.Failed(C.MalformedReply)
            else verdict.Done? && verdict.reply.rep == r[1] && C.ReplySpec(net, r).rest == r[Length(r).value..]
  {
    hide Lawful, AddressAt;
    LengthIsSize(r);
    ParseMessageExtent(net, r);
  }

  // The optimistic client fails on exactly these bytes, and reads the reply behind
  // exactly the answers of success.
  lemma ClientFails(net: Inet, auth: bool, b: bytes, x: byte)
    ensures var verdict := C.Spec(net, auth, b).verdict;
            var own: byte := if auth then 2 else 0;
            && (verdict == C.Failed(C.MalformedMethod) <==> |b| >= 2 && b[0] != 5)
            && (verdict == C.Failed(C.NoAcceptableMethods) <==> |b| >= 2 && b[0] == 5 && b[1] == 255)
            && (verdict == C.Failed(C.UnexpectedMethod(x)) <==>
                  |b| >= 2 && b[0] == 5 && b[1] == x && x != own && x != 255)
            && (verdict == C.Failed(C.MalformedAuth) <==>
                  auth && |b| >= 4 && b[0] == 5 && b[1] == 2 && b[2] != 1)
            && (verdict == C.Failed(C.AuthDenied(x)) <==>
                  auth && |b| >= 4 && b[0] == 5 && b[1] == 2 && b[2] == 1 && b[3] == x && x != 0)
            && (Cleared(auth, b) ==> C.Spec(net, auth, b) == C.ReplySpec(net, b[ReplyAt(auth)..]))
            && (!Cleared(auth, b) ==> !verdict.Done?)
  {
    hide Lawful, ParseMessage, MessageSize;
    if |b| >= 2 {
      ReplyErrors(net, b[2..]);
      if |b| >= 4 {
        ReplyErrors(net, b[2..][2..]);
        assert b[2..][2..] == b[4..];
      }
    }
  }

  lemma ReplyErrors(net: Inet, r: bytes)
    ensures C.ReplySpec(net, r).verdict.Failed? ==>
              C.ReplySpec(net, r).verdict.error.UnknownAtyp? || C.ReplySpec(net, r).verdict.error.MalformedReply?
  {
    hide Lawful, ParseMessage, MessageSize;
  }

  // The staged client takes either method it offered: the credentials' answers if it is
  // asked for them, and otherwise goes straight on to the reply.
  lemma StagedFails(net: Inet, auth: bool, b: bytes, x: byte)
    ensures var verdict := St.Spec(net, auth, b).verdict;
            && (verdict == C.Failed(C.MalformedMethod) <==> |b| >= 2 && b[0] != 5)
            && (verdict == C.Failed(C.NoAcceptableMethods) <==> |b| >= 2 && b[0] == 5 && b[1] == 255)
            && (verdict == C.Failed(C.UnexpectedMethod(x)) <==>
                  |b| >= 2 && b[0] == 5 && b[1] == x && x != 0 && x != 255 && !(auth && x == 2))
            && (verdict == C.Failed(C.MalformedAuth) <==>
                  auth && |b| >= 4 && b[0] == 5 && b[1] == 2 && b[2] != 1)
            && (verdict == C.Failed(C.AuthDenied(x)) <==>
                  auth && |b| >= 4 && b[0] == 5 && b[1] == 2 && b[2] == 1 && b[3] == x && x != 0)
            && (|b| >= 2 && b[0] == 5 && b[1] == 0 ==> St.Spec(net, auth, b) == C.ReplySpec(net, b[2..]))
            && (auth && |b| >= 4 && b[..4] == [5, 2, 1, 0] ==> St.Spec(net, auth, b) == C.ReplySpec(net, b[4..]))
  {
    hide Lawful, ParseMessage, MessageSize;
    if |b| >= 2 {
      ReplyErrors(net, b[2..]);
      if |b| >= 4 {
        ReplyErrors(net, b[2..][2..]);
        assert b[2..][2..] == b[4..];
        assert forall i :: 0 <= i < 4 ==> b[i] == b[..4][i];
      }
    }
  }

  // What the staged client has sent once it has taken the answers b: its greeting; its
  // credentials if it has them and 5, 2 came; its request if they were accepted, or if 5, 0
  // came.
  lemma StagedSends(auth: bool, m: St.Messages, b: bytes)
    ensures var asked := auth && |b| >= 2 && b[0] == 5 && b[1] == 2;
            var due := |b| >= 2 && b[0] == 5 && (b[1] == 0 || (asked && |b| >= 4 && b[2] == 1 && b[3] == 0));
            St.Sent(auth, m, b) == m.greeting + (if asked then m.auth else []) + (if due then m.req else [])
  {
  }

  // ---- one exchange, written out ---------------------------------------------

  // Hooks that accept everyone and open every connection from 0.0.0.0:0.
  function OpenHooks(): S.Hooks {
    S.Hooks((f, creds) => [Ok], (f, cmd, dst) => [Connected(ZERO_ADDRESS)])
  }

  // "alice", "s3cr3t", and "example.com" port 443.
  const ALICE: bytes := [97, 108, 105, 99, 101]
  const SECRET: bytes := [115, 51, 99, 114, 51, 116]
  const EXAMPLE: bytes := [101, 120, 97, 109, 112, 108, 101, 46, 99, 111, 109]

  const CREDENTIALS: bytes := [1, 5, 97, 108, 105, 99, 101, 6, 115, 51, 99, 114, 51, 116]
  const ASKED: bytes := [5, 1, 0, 3, 11, 101, 120, 97, 109, 112, 108, 101, 46, 99, 111, 109, 1, 187]

  lemma AskedBuilt(net: Inet)
    requires net.pton4(EXAMPLE) == None && net.pton6(EXAMPLE) == None
    ensures Message(net, 1, Address(EXAMPLE, 443)) == Some(ASKED)
    ensures PeerAddress(net, Address(EXAMPLE, 443)) == Address(EXAMPLE, 443)
  {
    hide Lawful, Message;
    var dst := Address(EXAMPLE, 443);
    MessageLayout(net, 1, dst);
    var m := Message(net, 1, dst).value;
    assert forall i :: 5 <= i < 16 ==> m[i] == m[5..16][i - 5];
    assert m == ASKED;
  }

  // What the clients send.
  lemma Pipelines(net: Inet)
    requires net.pton4(EXAMPLE) == None && net.pton6(EXAMPLE) == None
    ensures C.Pipeline(net, Some(Creds(ALICE, SECRET)), 1, Address(EXAMPLE, 443))
            == Some([5, 1, 2] + CREDENTIALS + ASKED)
    ensures C.Pipeline(net, None, 1, Address(EXAMPLE, 443)) == Some([5, 1, 0] + ASKED)
    ensures St.Greeting(Some(Creds(ALICE, SECRET))) == [5, 2, 2, 0]
    ensures St.Greeting(None) == [5, 1, 0]
  {
    hide Message, UserpassAuth, Lawful;
    AskedBuilt(net);
    CredentialsBuilt();
  }

  lemma CredentialsBuilt()
    ensures UserpassAuth(Creds(ALICE, SECRET)) == Some(CREDENTIALS)
  {
    hide UserpassAuth;
    UserpassLayout(Creds(ALICE, SECRET));
    var m := UserpassAuth(Creds(ALICE, SECRET)).value;
    assert forall i :: 2 <= i < 7 ==> m[i] == m[2..7][i - 2];
    assert forall i :: 8 <= i < 14 ==> m[i] == m[8..][i - 8];
    assert m == CREDENTIALS;
  }

  // What the server makes of it, and what the client makes of that.
  lemma WrittenOut(net: Inet, tunnel: bytes)
    requires net.pton4(EXAMPLE) == None && net.pton6(EXAMPLE) == None
    ensures S.Spec(net, true, [5, 1, 2] + CREDENTIALS + ASKED, OpenHooks()).events
            == [Send([5, 2]), Authorize(Creds(ALICE, SECRET)), Send([1, 0]), Connect(1, Address(EXAMPLE, 443)),
                Send([5, 0, 0, 1, 0, 0, 0, 0, 0, 0]), Relay(Address(EXAMPLE, 443))]
    ensures S.Spec(net, false, [5, 1, 0] + ASKED, OpenHooks()).events
            == [Send([5, 0]), Connect(1, Address(EXAMPLE, 443)),
                Send([5, 0, 0, 1, 0, 0, 0, 0, 0, 0]), Relay(Address(EXAMPLE, 443))]
    ensures S.Spec(net, true, [5, 1, 0] + ASKED, OpenHooks()).events
            == [Send([5, 255]), Close(NoAcceptableMethod)]
    ensures C.Spec(net, true, [5, 2, 1, 0] + [5, 0, 0, 1, 0, 0, 0, 0, 0, 0] + tunnel)
            == C.Reading(C.Done(Reply(0, Address([48, 46, 48, 46, 48, 46, 48], 0))), tunnel)
  {
    hide Message, Lawful, C.Pipeline, Opening, S.ConnectVerdict, FinalFlags, C.ReplySpec, S.Spec, Sends, Denied;
    var h, dst := OpenHooks(), Address(EXAMPLE, 443);
    Pipelines(net);
    AskedBuilt(net);
    OpenFlags(net, None);
    OpenFlags(net, Some(Creds(ALICE, SECRET)));
    PipelineStory(net, Some(Creds(ALICE, SECRET)), 1, dst, h, []);
    PipelineStory(net, None, 1, dst, h, []);
    assert [5, 1, 2] + CREDENTIALS + ASKED + [] == [5, 1, 2] + CREDENTIALS + ASKED;
    assert [5, 1, 0] + ASKED + [] == [5, 1, 0] + ASKED;
    Unmet(net, h);
    OpenVerdict(net);
    ReadBack(net, tunnel);
    OpenOpening(net);
  }

  // The flags once the open hooks have answered.
  lemma OpenFlags(net: Inet, creds: Option<Creds>)
    requires net.pton4(EXAMPLE) == None && net.pton6(EXAMPLE) == None
    ensures var f := FinalFlags(net, creds, Address(EXAMPLE, 443), OpenHooks());
            && !f.raw && !f.rejected && !f.failed && f.bound == Some(ZERO_ADDRESS)
            && f.target == Some(Address(EXAMPLE, 443))
    ensures !Denied(creds, OpenHooks())
  {
    hide Lawful, Normal, DecideAll;
    AskedBuilt(net);
    D.CallsRead(INITIAL_FLAGS, [Ok]);
    var g := ForConnect(AuthFlags(creds, OpenHooks()), Address(EXAMPLE, 443));
    var ds := [Connected(ZERO_ADDRESS)];
    D.CallsRead(g, ds);
    assert FinalFlags(net, creds, Address(EXAMPLE, 443), OpenHooks()) == DecideAll(g, ds);
    assert creds.Some? ==> AuthFlags(creds, OpenHooks()) == DecideAll(INITIAL_FLAGS, [Ok]);
    assert RelayRaw !in ds && RelayRaw !in [Ok];
    assert ds[..|ds| - 1] == [] && [Ok][..|[Ok]| - 1] == [];
    assert !D.Rejects([], false) && D.Target([], g.target.value) == g.target.value;
    assert !D.Rejects(ds, false) && D.Target(ds, g.target.value) == g.target.value;
  }

  lemma OpenVerdict(net: Inet)
    requires net.pton4(EXAMPLE) == None && net.pton6(EXAMPLE) == None
    ensures forall f: Flags ::
              && !f.raw && !f.rejected && !f.failed && f.bound == Some(ZERO_ADDRESS)
              && f.target == Some(Address(EXAMPLE, 443)) ==>
                S.ConnectVerdict(net, f)
                == [Send([5, 0, 0, 1, 0, 0, 0, 0, 0, 0]), Relay(Address(EXAMPLE, 443))]
  {
    hide Message, Lawful;
    RefusalBuilt(net, 0);
  }

  lemma OpenOpening(net: Inet)
    ensures Opening(None, OpenHooks()) == [Send([5, 0])]
    ensures !Denied(Some(Creds(ALICE, SECRET)), OpenHooks()) ==>
              Opening(Some(Creds(ALICE, SECRET)), OpenHooks())
              == [Send([5, 2]), Authorize(Creds(ALICE, SECRET)), Send([1, 0])]
  {
    hide Denied;
  }

  lemma Unmet(net: Inet, h: S.Hooks)
    ensures S.Spec(net, true, [5, 1, 0] + ASKED, h).events == [Send([5, 255]), Close(NoAcceptableMethod)]
  {
    hide S.AuthSpec, S.RequestSpec, ParseGreeting, Lawful;
    GreetingRoundTrip([0], ASKED);
    assert [5, 1, 0] + ASKED == ClientGreeting([0]).value + ASKED;
  }

  lemma ReadBack(net: Inet, tunnel: bytes)
    ensures C.Spec(net, true, [5, 2, 1, 0] + [5, 0, 0, 1, 0, 0, 0, 0, 0, 0] + tunnel)
            == C.Reading(C.Done(Reply(0, Address([48, 46, 48, 46, 48, 46, 48], 0))), tunnel)
  {
    hide Message, Lawful, C.ReplySpec, Normal;
    var reply: bytes := [5, 0, 0, 1, 0, 0, 0, 0, 0, 0];
    RefusalBuilt(net, 0);
    ReplyReading(net, 0, ZERO_ADDRESS, tunnel);
    ZeroEncodable(net);
    var b := [5, 2, 1, 0] + reply + tunnel;
    assert b[4..] == reply + tunnel;
    ClientFails(net, true, b, 0);
  }
}
