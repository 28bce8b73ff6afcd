// What a list of decision calls comes to, read off the list alone.
module Decisions {
  import opened Wire
  import opened ServerModel

  // Is the last ok or reject a reject? `before` if there is neither.
  function Rejects(ds: seq<Decision>, before: bool): bool {
    if ds == [] then before
    else
      match ds[|ds| - 1]
      case Ok => false
      case Reject(_) => true
      case _ => Rejects(ds[..|ds| - 1], before)
  }

  // The code of the last reject or connect_failed.
  function Code(ds: seq<Decision>, before: int): int {
    if ds == [] then before
    else
      match ds[|ds| - 1]
      case Reject(rep) => rep
      case ConnectFailed(rep) => rep
      case _ => Code(ds[..|ds| - 1], before)
  }

  // The address of the last set_target.
  function Target(ds: seq<Decision>, before: Address): Address {
    if ds == [] then before
    else
      match ds[|ds| - 1]
      case SetTarget(a) => a
      case _ => Target(ds[..|ds| - 1], before)
  }

  // The address of the last connected.
  function Bound(ds: seq<Decision>, before: Option<Address>): Option<Address> {
    if ds == [] then before
    else
      match ds[|ds| - 1]
      case Connected(a) => Some(a)
      case _ => Bound(ds[..|ds| - 1], before)
  }

  // Some call is a connect_failed.
  predicate Fails(ds: seq<Decision>) {
    ds != [] && (ds[|ds| - 1].ConnectFailed? || Fails(ds[..|ds| - 1]))
  }

  // The flags g are those of f after the calls, each from the calls that bear on it.
  predicate ReadsAnswer(f: Flags, ds: seq<Decision>, g: Flags) {
    g.rejected == Rejects(ds, f.rejected) && g.rep == Code(ds, f.rep) && g.failed == (f.failed || Fails(ds))
  }

  predicate ReadsAddress(f: Flags, ds: seq<Decision>, g: Flags) {
    (f.target.Some? ==> g.target == Some(Target(ds, f.target.value))) && g.bound == Bound(ds, f.bound)
  }

  predicate ReadsSticky(f: Flags, ds: seq<Decision>, g: Flags) {
    && g.raw == (f.raw || RelayRaw in ds)
    && g.intercepted == (f.intercepted || Decision.Intercept in ds)
  }

  predicate Reads(f: Flags, ds: seq<Decision>, g: Flags) {
    ReadsAnswer(f, ds, g) && ReadsAddress(f, ds, g) && ReadsSticky(f, ds, g)
  }

  lemma AnswerStep(f: Flags, ds: seq<Decision>, g: Flags)
    requires ds != [] && ReadsAnswer(f, ds[..|ds| - 1], g)
    ensures ReadsAnswer(f, ds, Decide(g, ds[|ds| - 1]))
  {
  }

  lemma AddressStep(f: Flags, ds: seq<Decision>, g: Flags)
    requires ds != [] && ReadsAddress(f, ds[..|ds| - 1], g)
    ensures ReadsAddress(f, ds, Decide(g, ds[|ds| - 1]))
  {
  }

  lemma StickyStep(f: Flags, ds: seq<Decision>, g: Flags)
    requires ds != [] && ReadsSticky(f, ds[..|ds| - 1], g)
    ensures ReadsSticky(f, ds, Decide(g, ds[|ds| - 1]))
  {
    assert ds == ds[..|ds| - 1] + [ds[|ds| - 1]];
  }

  lemma {:induction false} CallsRead(f: Flags, ds: seq<Decision>)
    ensures Reads(f, ds, DecideAll(f, ds))
  {
    hide ReadsAnswer, ReadsAddress, ReadsSticky, Decide;
    if ds == [] {
      NoCalls(f);
    } else {
      var g := DecideAll(f, ds[..|ds| - 1]);
      CallsRead(f, ds[..|ds| - 1]);
      AnswerStep(f, ds, g);
      AddressStep(f, ds, g);
      StickyStep(f, ds, g);
    }
  }

  lemma NoCalls(f: Flags)
    ensures Reads(f, [], f)
  {
  }

  // A rejection has a code of its own.
  lemma {:induction false} RejectionCode(ds: seq<Decision>, c1: int, c2: int)
    requires Rejects(ds, false)
    ensures Code(ds, c1) == Code(ds, c2)
  {
    if !ds[|ds| - 1].Reject? && !ds[|ds| - 1].ConnectFailed? {
      RejectionCode(ds[..|ds| - 1], c1, c2);
    }
  }

  lemma {:induction false} FailureCode(ds: seq<Decision>, c1: int, c2: int)
    requires Fails(ds)
    ensures Code(ds, c1) == Code(ds, c2)
  {
    if !ds[|ds| - 1].Reject? && !ds[|ds| - 1].ConnectFailed? {
      FailureCode(ds[..|ds| - 1], c1, c2);
    }
  }
}
