// What the authorize hook can still change once the connection is asked for: the driver
// looks at one flag that the session's own events never depend on.
module DriverMemory {
  import opened Wire
  import opened Codec
  import opened CodecLaws
  import opened ServerModel
  import opened StaleDecisions
  import opened Transcript
  import opened Driver
  import S = ServerSpec
  import G = ServerGrammar

  // The connect hook decides by the target alone.
  ghost predicate IgnoresFlags(v: Server) {
    v.onConnect.Some? ==> forall f, g, dst :: v.onConnect.value(f, dst) == v.onConnect.value(g, dst)
  }

  // The events after Connect, for flags that the session had before it.
  function VerdictFrom(net: Inet, v: Server, f: Flags, dst: Address): seq<Event> {
    var g := ForConnect(f, dst);
    S.ConnectVerdict(net, DecideAll(g, AsHooks(v).connect(g, CONNECT, dst)))
  }

  // What the driver and the session together remember.
  predicate Remembered(f1: Flags, f2: Flags) {
    f1.raw == f2.raw && (f1.raw || f1.intercepted == f2.intercepted)
  }

  // The flags that matter to the driver's turn, and to the verdict after it.
  predicate Alike(f: Flags, g: Flags) {
    LiveFlags(ConnectWait, f) == LiveFlags(ConnectWait, g) && (f.raw || f.intercepted == g.intercepted)
  }

  lemma AlikeDecide(f: Flags, g: Flags, d: Decision)
    requires Alike(f, g)
    ensures Alike(Decide(f, d), Decide(g, d))
  {
    LiveDecide(ConnectWait, f, g, d);
  }

  lemma {:induction false} AlikeDecideAll(f: Flags, g: Flags, ds: seq<Decision>)
    requires Alike(f, g)
    ensures Alike(DecideAll(f, ds), DecideAll(g, ds))
  {
    hide Alike, Decide;
    if ds == [] {
    } else {
      var init := ds[..|ds| - 1];
      AlikeDecideAll(f, g, init);
      AlikeDecide(DecideAll(f, init), DecideAll(g, init), ds[|ds| - 1]);
    }
  }

  // Two sessions about to connect that agree on both sticky flags are told the same.
  lemma SameVerdict(net: Inet, v: Server, f1: Flags, f2: Flags, dst: Address)
    requires IgnoresFlags(v) && Remembered(f1, f2)
    ensures VerdictFrom(net, v, f1, dst) == VerdictFrom(net, v, f2, dst)
  {
    hide Lawful, Message, Answer, DecideAll, DialDecisions;
    var g1, g2 := ForConnect(f1, dst), ForConnect(f2, dst);
    var ds := HookDecisions(v, g1, dst);
    assert HookDecisions(v, g2, dst) == ds;
    AlikeDecideAll(g1, g2, ds);
    var d1, d2 := DriverDecisions(v, DecideAll(g1, ds), dst), DriverDecisions(v, DecideAll(g2, ds), dst);
    DecideAppend(g1, ds, d1);
    DecideAppend(g2, ds, d2);
    if DecideAll(g1, ds).raw {
      DriverKeepsRaw(v, DecideAll(g1, ds), dst);
      DriverKeepsRaw(v, DecideAll(g2, ds), dst);
    } else {
      assert d1 == d2;
      AlikeDecideAll(DecideAll(g1, ds), DecideAll(g2, ds), d1);
    }
  }

  lemma DriverKeepsRaw(v: Server, f: Flags, dst: Address)
    ensures var g := DecideAll(f, DriverDecisions(v, f, dst)); g.raw == f.raw && g.target == f.target
  {
    var ds := DriverDecisions(v, f, dst);
    assert |ds| <= 1;
    assert ds != [] ==> DecideAll(f, ds) == Decide(DecideAll(f, ds[..0]), ds[0]);
  }

  // No hook, and every dial refused.
  function Unreachable(): Server {
    Server(None, None, dst => Refused)
  }

  lemma UnreachableVerdict(net: Inet, f: Flags, dst: Address)
    ensures VerdictFrom(net, Unreachable(), f, dst)
            == if f.raw then [Relay(dst)]
               else if f.intercepted then Answer(net, SUCCEEDED, dst, Relay(dst))
               else Answer(net, CONN_REFUSED, ZERO_ADDRESS, Close(UpstreamFailed))
  {
    hide Lawful, Message, Answer;
    var v, g := Unreachable(), ForConnect(f, dst);
    var d := if f.intercepted then Connected(dst) else ConnectFailed(CONN_REFUSED);
    assert AsHooks(v).connect(g, CONNECT, dst) == [] + [d] == [d];
    assert [d][..0] == [];
    assert DecideAll(g, [d]) == Decide(DecideAll(g, []), d);
  }

  lemma UnreachableTells(net: Inet, dst: Address)
    ensures var relay, accepted, refused := [Relay(dst)], Answer(net, SUCCEEDED, dst, Relay(dst)),
                                            Answer(net, CONN_REFUSED, ZERO_ADDRESS, Close(UpstreamFailed));
            relay != accepted && relay != refused && accepted != refused
  {
    hide Lawful, Message;
    G.AnswerIsReply(net, CONN_REFUSED, ZERO_ADDRESS);
  }

  // Whatever was decided before the connection is asked for: every server whose connect
  // hook ignores the flags treats the two sessions alike, if and only if relay_raw had
  // been called in both, or in neither with intercept called in both or neither.
  lemma DriverRemembersExactly(net: Inet, f1: Flags, f2: Flags, dst: Address)
    ensures (forall v :: IgnoresFlags(v) ==> VerdictFrom(net, v, f1, dst) == VerdictFrom(net, v, f2, dst))
            <==> Remembered(f1, f2)
  {
    hide VerdictFrom, Answer, Message, Lawful, Unreachable, IgnoresFlags;
    if Remembered(f1, f2) {
      forall v | IgnoresFlags(v)
        ensures VerdictFrom(net, v, f1, dst) == VerdictFrom(net, v, f2, dst)
      {
        SameVerdict(net, v, f1, f2, dst);
      }
    } else {
      UnreachableVerdict(net, f1, dst);
      UnreachableVerdict(net, f2, dst);
      UnreachableTells(net, dst);
      UnreachableIgnores();
    }
  }

  lemma UnreachableIgnores()
    ensures IgnoresFlags(Unreachable())
  {
  }

  // What an authorize hook leaves of the flags.
  function LeftBy(hook: (Flags, Creds) -> HookRun, creds: Creds): Flags {
    var run := hook(INITIAL_FLAGS, creds);
    DecideAll(INITIAL_FLAGS, run.decisions + if run.raises then [Reject(NOT_ALLOWED)] else [])
  }

  function Served(net: Inet, v: Server, hook: (Flags, Creds) -> HookRun, creds: Creds, dst: Address): seq<Event> {
    RequestEvents(net, Some(creds), CONNECT as int, dst, AsHooks(v.(authorize := Some(hook))))
  }

  lemma ServedVerdict(net: Inet, v: Server, hook: (Flags, Creds) -> HookRun, creds: Creds, dst: Address)
    ensures var peer := PeerAddress(net, dst);
            Served(net, v, hook, creds, dst)
            == [Connect(CONNECT, peer)] + VerdictFrom(net, v, LeftBy(hook, creds), peer)
  {
    hide Lawful, Normal, S.ConnectVerdict, DecideAll, ForConnect;
    var w, peer := v.(authorize := Some(hook)), PeerAddress(net, dst);
    assert AuthFlags(Some(creds), AsHooks(w)) == LeftBy(hook, creds);
    var g := ForConnect(LeftBy(hook, creds), peer);
    ConnectUnchanged(v, w, g, peer);
  }

  lemma ConnectUnchanged(v: Server, w: Server, f: Flags, dst: Address)
    requires w.onConnect == v.onConnect && w.dial == v.dial
    ensures AsHooks(w).connect(f, CONNECT, dst) == AsHooks(v).connect(f, CONNECT, dst)
  {
  }

  // Two authorize hooks before the same request: every server whose connect hook ignores
  // the flags goes on alike behind either, if and only if they leave the sticky flags so.
  lemma AuthorizeRememberedExactly(net: Inet, hook1: (Flags, Creds) -> HookRun, hook2: (Flags, Creds) -> HookRun,
                                   creds: Creds, dst: Address)
    ensures (forall v :: IgnoresFlags(v) ==> Served(net, v, hook1, creds, dst) == Served(net, v, hook2, creds, dst))
            <==> Remembered(LeftBy(hook1, creds), LeftBy(hook2, creds))
  {
    hide Served, VerdictFrom, LeftBy, Remembered, IgnoresFlags;
    var f1, f2, peer := LeftBy(hook1, creds), LeftBy(hook2, creds), PeerAddress(net, dst);
    var ask := Connect(CONNECT, peer);
    DriverRemembersExactly(net, f1, f2, peer);
    forall v
      ensures Served(net, v, hook1, creds, dst) == Served(net, v, hook2, creds, dst)
              <==> VerdictFrom(net, v, f1, peer) == VerdictFrom(net, v, f2, peer)
    {
      ServedVerdict(net, v, hook1, creds, dst);
      ServedVerdict(net, v, hook2, creds, dst);
      var es1, es2 := VerdictFrom(net, v, f1, peer), VerdictFrom(net, v, f2, peer);
      assert ([ask] + es1)[1..] == es1 && ([ask] + es2)[1..] == es2;
    }
  }
}
