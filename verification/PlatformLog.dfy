/**
 What the log of a platform run says: which component was put into reset, whose flash was verified and
 untouched since, what was released.
 */
module PlatformLog {
  import opened NorFlash
  import opened Ufm
  import opened FlashValidation
  import opened Platform

  // ---------------------------------------------------------------- logs

  predicate Concerns(x: Event, dev: Dev) {
    match x
    case Entered(d, _) => d == dev
    case Written(d) => d == dev
    case Verified(d, _, _, _) => d == dev
    case Released(d, _) => d == dev
    case _ => false
  }

  // An event of T-1 work on these flashes: nothing enters or leaves reset, and no reconfiguration starts
  // while a firmware recovery update is pending
  predicate IsWork(x: Event, devs: set<Dev>) {
    match x
    case Entered(_, _) => false
    case Written(d) => d in devs
    case Verified(d, _, _, _) => d in devs
    case Released(_, _) => false
    case CpldExamined => true
    case Decommissioned => true
    case Reconfigured(pending) => !pending
    case CpldPromoted => true
  }

  // The log c is a with such work added
  predicate Adds(a: seq<Event>, c: seq<Event>, devs: set<Dev>) {
    a <= c && forall k | |a| <= k < |c| :: IsWork(c[k], devs)
  }

  lemma AddsNothing(a: seq<Event>, devs: set<Dev>)
    ensures Adds(a, a, devs)
  {
  }

  lemma AddsOne(a: seq<Event>, c: seq<Event>, x: Event, devs: set<Dev>)
    requires Adds(a, c, devs) && IsWork(x, devs)
    ensures Adds(a, c + [x], devs)
  {
    hide IsWork;
  }

  lemma AddsMore(a: seq<Event>, c: seq<Event>, e: seq<Event>, devs: set<Dev>, more: set<Dev>)
    requires Adds(a, c, devs) && Adds(c, e, more)
    ensures Adds(a, e, devs + more)
  {
    forall k | |a| <= k < |e| ensures IsWork(e[k], devs + more) {
      if k < |c| {
        assert IsWork(c[k], devs) && e[k] == c[k];
      } else {
        assert IsWork(e[k], more);
      }
    }
  }

  // The component was put into reset at e and has not left it since
  predicate EnteredAt(log: seq<Event>, dev: Dev, e: nat) {
    && e < |log| && log[e].Entered? && log[e].dev == dev
    && forall k | e < k < |log| :: !(log[k].Entered? && log[k].dev == dev) && !(log[k].Released? && log[k].dev == dev)
  }

  ghost predicate Inside(log: seq<Event>, dev: Dev) { exists e: nat :: EnteredAt(log, dev, e) }

  // At v, since the component was put into reset, the authentication of its flash made or found the
  // active region valid and left these contents; nothing has happened to the flash since
  ghost predicate VerifiedAt(b: Board, log: seq<Event>, dev: Dev, mem: Mem, v: nat) {
    && v < |log| && log[v].Verified? && log[v].dev == dev && Inside(log[..v], dev)
    && IsPage(log[v].page) && LaidOut(b.Map(dev), |log[v].before|)
    && var o := Authenticate(b.d, log[v].page, log[v].before, b.Map(dev), log[v].force);
    && o.active && o.mem == mem
    && forall k | v < k < |log| :: !Concerns(log[k], dev)
  }

  ghost predicate Vouched(b: Board, log: seq<Event>, dev: Dev, mem: Mem) { exists v: nat :: VerifiedAt(b, log, dev, mem, v) }

  // The component was put into reset when the platform was not provisioned
  ghost predicate Unprovisioned(log: seq<Event>, dev: Dev) {
    exists e: nat :: EnteredAt(log, dev, e) && !log[e].provisioned
  }

  // Every release from reset is vouched for, on a provisioned platform
  ghost predicate ReleasesVouched(b: Board, log: seq<Event>) {
    forall k | 0 <= k < |log| && log[k].Released? ::
      Vouched(b, log[..k], log[k].dev, log[k].mem) || Unprovisioned(log[..k], log[k].dev)
  }

  // No reconfiguration was started while a firmware recovery update was pending
  predicate NoneWhilePending(log: seq<Event>) {
    forall k | 0 <= k < |log| && log[k].Reconfigured? :: !log[k].pending
  }

  ghost predicate GoodLog(b: Board, log: seq<Event>) { ReleasesVouched(b, log) && NoneWhilePending(log) }

  lemma WorkKeepsGood(b: Board, a: seq<Event>, c: seq<Event>, devs: set<Dev>)
    requires GoodLog(b, a) && Adds(a, c, devs)
    ensures GoodLog(b, c)
  {
    forall k | 0 <= k < |c| && c[k].Released?
      ensures Vouched(b, c[..k], c[k].dev, c[k].mem) || Unprovisioned(c[..k], c[k].dev)
    {
      assert a[k] == c[k] && c[..k] == a[..k];
    }
    forall k | 0 <= k < |c| && c[k].Reconfigured? ensures !c[k].pending {
      if k < |a| { assert a[k] == c[k]; } else { assert IsWork(c[k], devs); }
    }
    hide Vouched, Unprovisioned;
  }

  lemma OneMoreKeepsGood(b: Board, a: seq<Event>, x: Event)
    requires GoodLog(b, a) && (x.Reconfigured? ==> !x.pending)
    requires x.Released? ==> Vouched(b, a, x.dev, x.mem) || Unprovisioned(a, x.dev)
    ensures GoodLog(b, a + [x])
  {
    var c := a + [x];
    forall k | 0 <= k < |c| && c[k].Released?
      ensures Vouched(b, c[..k], c[k].dev, c[k].mem) || Unprovisioned(c[..k], c[k].dev)
    {
      assert c[..k] == a[..k];
      if k == |a| { assert a[..k] == a; }
    }
    hide Vouched, Unprovisioned;
  }

  // Work on any flash leaves a component in reset; work on the other flash leaves it vouched for
  lemma WorkKeepsInside(a: seq<Event>, c: seq<Event>, dev: Dev, devs: set<Dev>)
    requires Inside(a, dev) && Adds(a, c, devs)
    ensures Inside(c, dev)
  {
    var e: nat :| EnteredAt(a, dev, e);
    forall k | |a| <= k < |c| ensures !c[k].Entered? && !c[k].Released? {
      assert IsWork(c[k], devs);
    }
    assert c[e] == a[e] && forall k | e < k < |a| :: c[k] == a[k];
    assert EnteredAt(c, dev, e);
  }

  lemma OtherKeepsInside(a: seq<Event>, x: Event, dev: Dev)
    requires Inside(a, dev) && !Concerns(x, dev)
    ensures Inside(a + [x], dev)
  {
    var e: nat :| EnteredAt(a, dev, e);
    assert EnteredAt(a + [x], dev, e);
  }

  lemma EntryInside(a: seq<Event>, dev: Dev, provisioned: bool)
    ensures Inside(a + [Entered(dev, provisioned)], dev)
    ensures !provisioned ==> Unprovisioned(a + [Entered(dev, provisioned)], dev)
  {
    assert EnteredAt(a + [Entered(dev, provisioned)], dev, |a|);
  }

  lemma OtherKeepsUnprovisioned(a: seq<Event>, x: Event, dev: Dev)
    requires Unprovisioned(a, dev) && !Concerns(x, dev)
    ensures Unprovisioned(a + [x], dev)
  {
    var e: nat :| EnteredAt(a, dev, e) && !a[e].provisioned;
    assert EnteredAt(a + [x], dev, e) && !(a + [x])[e].provisioned;
  }

  lemma OthersKeepVouched(b: Board, a: seq<Event>, c: seq<Event>, dev: Dev, mem: Mem)
    requires Vouched(b, a, dev, mem) && a <= c && forall k | |a| <= k < |c| :: !Concerns(c[k], dev)
    ensures Vouched(b, c, dev, mem)
  {
    var v: nat :| VerifiedAt(b, a, dev, mem, v);
    assert c[v] == a[v] && c[..v] == a[..v] && forall k | v < k < |a| :: c[k] == a[k];
    hide Inside, Authenticate, LaidOut;
    assert VerifiedAt(b, c, dev, mem, v);
  }

  lemma OtherWorkKeepsVouched(b: Board, a: seq<Event>, c: seq<Event>, dev: Dev, mem: Mem, devs: set<Dev>)
    requires Vouched(b, a, dev, mem) && Adds(a, c, devs) && dev !in devs
    ensures Vouched(b, c, dev, mem)
  {
    forall k | |a| <= k < |c| ensures !Concerns(c[k], dev) {
      assert IsWork(c[k], devs);
    }
    assert a <= c;
    hide *;
    OthersKeepVouched(b, a, c, dev, mem);
  }

  lemma NowVouched(b: Board, a: seq<Event>, dev: Dev, page: Mem, before: Mem, force: bool)
    requires Inside(a, dev) && IsPage(page) && LaidOut(b.Map(dev), |before|)
    requires Authenticate(b.d, page, before, b.Map(dev), force).active
    ensures Vouched(b, a + [Verified(dev, page, before, force)], dev, Authenticate(b.d, page, before, b.Map(dev), force).mem)
  {
    var c := a + [Verified(dev, page, before, force)];
    hide Authenticate, Inside, LaidOut;
    assert c[..|a|] == a;
    assert VerifiedAt(b, c, dev, Authenticate(b.d, page, before, b.Map(dev), force).mem, |a|);
  }

  // How often something happened
  function Count(log: seq<Event>, x: Event): nat { multiset(log)[x] }

  lemma CountOne(a: seq<Event>, x: Event, y: Event)
    ensures Count(a + [x], y) == Count(a, y) + if x == y then 1 else 0
  {
  }
}
