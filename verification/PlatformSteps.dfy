/**
 What leaving T-1, the three kinds of reset, and each poll of the T0 loop keep.
 */
module PlatformSteps {
  import opened NorFlash
  import opened Ufm
  import opened Authentication
  import opened PfmValidation
  import opened CapsuleValidation
  import opened FlashValidation
  import opened Platform
  import opened PlatformLog
  import opened PlatformWork

  // ---------------------------------------------------------------- leaving T-1

  // The component may leave reset
  ghost predicate MayLeave(b: Board, s: State, dev: Dev) { Ready(b, s, dev) || Unprovisioned(s.log, dev) }

  // Leaving T-1 changes nothing but who is held in reset, and the mode
  ghost predicate Leaves(s: State, r: State) {
    && r.bmc == s.bmc.(held := r.bmc.held) && r.pch == s.pch.(held := r.pch.held)
    && r.provisioned == s.provisioned && r.page == s.page
    && Count(r.log, CpldPromoted) == Count(s.log, CpldPromoted) && Count(r.log, CpldExamined) == Count(s.log, CpldExamined)
    && Count(r.log, Decommissioned) == Count(s.log, Decommissioned)
    && (r.mode == s.mode || r.mode == Lockdown)
  }

  lemma ReleaseKeeps(b: Board, s: State, dev: Dev)
    requires GoodLog(b, s.log) && MayLeave(b, s, dev) && !Of(s, dev).flags.allFailed
    ensures var r := Release(s, dev); GoodLog(b, r.log) && Leaves(s, r) && (MayLeave(b, s, Other(dev)) ==> MayLeave(b, r, Other(dev)))
  {
    var x := Released(dev, Of(s, dev).mem);
    CountOne(s.log, x, CpldPromoted);
    CountOne(s.log, x, CpldExamined);
    CountOne(s.log, x, Decommissioned);
    hide GoodLog, Count, Vouched, Unprovisioned;
    OneMoreKeepsGood(b, s.log, x);
    if Unprovisioned(s.log, Other(dev)) {
      OtherKeepsUnprovisioned(s.log, x, Other(dev));
    } else if Vouched(b, s.log, Other(dev), Of(s, Other(dev)).mem) {
      OthersKeepVouched(b, s.log, s.log + [x], Other(dev), Of(s, Other(dev)).mem);
    }
  }

  lemma ArmingLeaves(b: Board, s: State, r: State, armed: set<Timer>, booted: set<Part>)
    requires r == s.(armed := armed, booted := booted)
    ensures Leaves(s, r) && (MayLeave(b, s, Bmc) ==> MayLeave(b, r, Bmc)) && (MayLeave(b, s, Pch) ==> MayLeave(b, r, Pch))
  {
    hide Vouched, Unprovisioned, Count;
  }

  lemma LeavesTwice(s: State, t: State, r: State)
    requires Leaves(s, t) && Leaves(t, r)
    ensures Leaves(s, r)
  {
    hide Count;
  }

  lemma BootBmcKeeps(b: Board, s: State)
    requires GoodLog(b, s.log) && MayLeave(b, s, Bmc) && MayLeave(b, s, Pch)
    ensures var r := BootBmc(s); GoodLog(b, r.log) && Leaves(s, r) && MayLeave(b, r, Pch) && r.mode == s.mode
  {
    if s.bmc.flags.allFailed {
      ArmingLeaves(b, s, s, s.armed, s.booted);
    } else {
      ReleaseKeeps(b, s, Bmc);
      var t, r := Release(s, Bmc), BootBmc(s);
      assert r.log == t.log && r == t.(armed := r.armed, booted := r.booted) && r.mode == s.mode;
      hide *;
      ArmingLeaves(b, t, r, r.armed, r.booted);
      LeavesTwice(s, t, r);
      assert Other(Bmc) == Pch by { OtherOf(); }
    }
  }

  lemma OtherOf()
    ensures Other(Bmc) == Pch && Other(Pch) == Bmc
  {
  }

  lemma BootPchKeeps(b: Board, s: State)
    requires GoodLog(b, s.log) && MayLeave(b, s, Pch)
    ensures var r := BootPch(s); GoodLog(b, r.log) && Leaves(s, r) && r.mode == s.mode
  {
    if s.pch.flags.allFailed || s.bmc.flags.allFailed {
      ArmingLeaves(b, s, s, s.armed, s.booted);
    } else {
      ReleaseKeeps(b, s, Pch);
      var t, r := Release(s, Pch), BootPch(s);
      assert r.log == t.log && r == t.(armed := r.armed, booted := r.booted) && r.mode == s.mode;
      hide *;
      ArmingLeaves(b, t, r, r.armed, r.booted);
      LeavesTwice(s, t, r);
    }
  }

  lemma EnterT0Keeps(b: Board, s: State)
    requires GoodLog(b, s.log) && MayLeave(b, s, Bmc) && MayLeave(b, s, Pch)
    ensures var r := EnterT0(s); GoodLog(b, r.log) && Leaves(s, r)
  {
    hide GoodLog, MayLeave, BootBmc, BootPch, Count;
    if !(s.bmc.flags.allFailed && s.pch.flags.allFailed) {
      BootBmcKeeps(b, s);
      BootPchKeeps(b, BootBmc(s));
      hide Leaves;
      LeavesTwice(s, BootBmc(s), EnterT0(s));
    }
  }

  lemma EnterT0BmcOnlyKeeps(b: Board, s: State)
    requires GoodLog(b, s.log) && MayLeave(b, s, Bmc)
    ensures var r := EnterT0BmcOnly(s); GoodLog(b, r.log) && Leaves(s, r) && r.mode == s.mode
  {
    if s.bmc.flags.allFailed {
      ArmingLeaves(b, s, s, s.armed, s.booted);
    } else {
      ReleaseKeeps(b, s, Bmc);
      var t, r := Release(s, Bmc), EnterT0BmcOnly(s);
      assert r.log == t.log && r == t.(armed := r.armed, booted := r.booted) && r.mode == s.mode;
      hide *;
      ArmingLeaves(b, t, r, r.armed, r.booted);
      LeavesTwice(s, t, r);
    }
  }

  // ---------------------------------------------------------------- resets

  // What every state of every run satisfies; while a reset is under way a CPLD promotion may be due
  ghost predicate Sound(b: Board, s: State) {
    GoodLog(b, s.log) && Leveled(s.bmc) && Leveled(s.pch) && !s.pch.flags.readyCpld
  }

  ghost predicate Safe(b: Board, s: State) { Sound(b, s) && (s.mode == Running ==> !s.bmc.flags.readyCpld) }

  lemma HoldKeeps(b: Board, s: State, dev: Dev)
    requires GoodLog(b, s.log)
    ensures var r := Hold(s, dev);
            && GoodLog(b, r.log) && Leaves(s, r) && r.mode == s.mode && Inside(r.log, dev)
            && (!s.provisioned ==> Unprovisioned(r.log, dev))
            && (Inside(s.log, Other(dev)) ==> Inside(r.log, Other(dev)))
            && (Unprovisioned(s.log, Other(dev)) ==> Unprovisioned(r.log, Other(dev)))
  {
    var x := Entered(dev, s.provisioned);
    CountOne(s.log, x, CpldPromoted);
    CountOne(s.log, x, CpldExamined);
    CountOne(s.log, x, Decommissioned);
    EntryInside(s.log, dev, s.provisioned);
    hide GoodLog, Count, Inside, Unprovisioned;
    OneMoreKeepsGood(b, s.log, x);
    if Inside(s.log, Other(dev)) {
      OtherKeepsInside(s.log, x, Other(dev));
    }
    if Unprovisioned(s.log, Other(dev)) {
      OtherKeepsUnprovisioned(s.log, x, Other(dev));
    }
  }

  // Both components held
  function HoldBoth(s: State): State { Hold(Hold(s, Bmc), Pch) }

  lemma HoldBothKeeps(b: Board, s: State)
    requires GoodLog(b, s.log)
    ensures var r := HoldBoth(s);
            && GoodLog(b, r.log) && Leaves(s, r) && r.mode == s.mode && Inside(r.log, Bmc) && Inside(r.log, Pch)
            && (!s.provisioned ==> MayLeave(b, r, Bmc) && MayLeave(b, r, Pch))
  {
    hide GoodLog, Hold, Inside, Unprovisioned, Count, Ready;
    HoldKeeps(b, s, Bmc);
    HoldKeeps(b, Hold(s, Bmc), Pch);
    hide Leaves;
    LeavesTwice(s, Hold(s, Bmc), HoldBoth(s));
  }

  // What the CPLD bits of the BMC intent come to in a platform reset from s: n capsules are examined
  ghost predicate ResetSettles(s: State, r: State, n: nat) {
    var i := s.bmc.intent;
    && Count(r.log, CpldExamined) == Count(s.log, CpldExamined) + n && n <= (if i.Cpld() then 1 else 0)
    && (r.mode != Astray ==>
          && r.bmc.intent == (if i.Cpld() && n == 0 then i.OnlyCpld() else NONE)
          && (i.Cpld() && !i.BmcFw() && !i.PchFw() && !s.pch.intent.PchFw() ==> n == 1))
    && (r.mode == Running ==> r.pch.intent == NONE && r.provisioned)
  }

  lemma PlatformResetIs(b: Board, s: State, e: Pins)
    requires Sized(b, s)
    ensures var t := HoldBoth(s);
            && Sized(b, t)
            && var r := if t.provisioned then Tmin1(b, t, e) else t;
            PlatformReset(b, s, e) == if r.mode == Running then EnterT0(r) else r
  {
    HoldBothFits(b, s);
    hide Tmin1, EnterT0, Sized;
  }

  lemma HoldBothFits(b: Board, s: State)
    requires Sized(b, s)
    ensures Sized(b, HoldBoth(s))
  {
  }

  // The end of a reset: every component may leave
  lemma LeaveT1(b: Board, s: State, t: State)
    requires Sound(b, t) && MayLeave(b, t, Bmc) && MayLeave(b, t, Pch) && !t.bmc.flags.readyCpld
    ensures var r := EnterT0(t); Safe(b, r) && Leaves(t, r)
  {
    hide GoodLog, EnterT0, Count, MayLeave;
    EnterT0Keeps(b, t);
    LeavingKeepsLevels(t, EnterT0(t));
  }

  lemma LeavingKeepsLevels(s: State, r: State)
    requires Leaves(s, r)
    ensures (Leveled(s.bmc) <==> Leveled(r.bmc)) && (Leveled(s.pch) <==> Leveled(r.pch))
    ensures r.bmc.flags == s.bmc.flags && r.pch.flags == s.pch.flags && r.bmc.intent == s.bmc.intent && r.pch.intent == s.pch.intent
  {
  }

  lemma WorksSound(b: Board, s: State, r: State, m: nat, n: nat)
    requires Sound(b, s) && WorksOnBoth(s, r, m, n)
    ensures Sound(b, r)
  {
    hide Adds, GoodLog, Leveled, Count;
    WorkKeepsGood(b, s.log, r.log, {Bmc, Pch});
  }

  lemma HeldSound(b: Board, s: State)
    requires Sound(b, s)
    ensures var t := HoldBoth(s);
            && Sound(b, t) && Leaves(s, t) && t.mode == s.mode && Inside(t.log, Bmc) && Inside(t.log, Pch)
            && t.bmc.intent == s.bmc.intent && t.pch.intent == s.pch.intent && t.bmc.flags == s.bmc.flags
            && (!s.provisioned ==> MayLeave(b, t, Bmc) && MayLeave(b, t, Pch))
  {
    hide GoodLog, HoldBoth, Leveled, Leaves, Inside, MayLeave;
    HoldBothKeeps(b, s);
    LeavingKeepsLevels(s, HoldBoth(s));
    SameMode(s, HoldBoth(s));
  }

  lemma SameMode(s: State, r: State)
    requires Leaves(s, r)
    ensures r.provisioned == s.provisioned && r.page == s.page
    ensures Count(r.log, CpldPromoted) == Count(s.log, CpldPromoted) && Count(r.log, CpldExamined) == Count(s.log, CpldExamined)
    ensures Count(r.log, Decommissioned) == Count(s.log, Decommissioned)
  {
  }

  // On an unprovisioned platform both components are simply released
  lemma UnprovisionedReset(b: Board, s: State, e: Pins)
    requires Sized(b, s) && Sound(b, s) && s.mode == Running && !s.provisioned && !s.bmc.flags.readyCpld
    ensures var r := PlatformReset(b, s, e);
            Safe(b, r) && Count(r.log, CpldPromoted) == Count(s.log, CpldPromoted) && DataKept(s, r)
  {
    PlatformResetIs(b, s, e);
    hide *;
    var t := HoldBoth(s);
    HeldSound(b, s);
    SameMode(s, t);
    LeaveT1(b, s, t);
    SameMode(t, EnterT0(t));
    SameData(s, EnterT0(t));
  }

  // On a provisioned one
  lemma ProvisionedReset(b: Board, s: State, e: Pins) returns (n: nat)
    requires Sized(b, s) && Sound(b, s) && s.mode == Running && s.provisioned
    ensures var r := PlatformReset(b, s, e);
            && Safe(b, r) && (e.pitPasses ==> ResetSettles(s, r, n)) && (!e.pitPasses ==> r.mode == Lockdown) && DataKept(s, r)
            && (Count(r.log, CpldPromoted) != Count(s.log, CpldPromoted) ==> s.bmc.flags.readyCpld)
  {
    hide *;
    PlatformResetIs(b, s, e);
    var t, r := HoldBoth(s), PlatformReset(b, s, e);
    HeldSound(b, s);
    SameMode(s, t);
    SoundFacts(b, t);
    var promoted: nat;
    n, promoted := Tmin1Works(b, t, e);
    var x := Tmin1(b, t, e);
    WorksSound(b, t, x, n, promoted);
    BothFacts(b, t, x, n, promoted);
    if x.mode == Running {
      LeaveT1(b, s, x);
      SameMode(x, r);
      LeavingKeepsLevels(x, r);
    } else {
      StoppedSafe(b, x);
    }
    DataKeptInReset(s, t, x, r);
    if e.pitPasses {
      ResetSettled(s, t, Prepared(b, t), x, r, n);
    }
  }

  lemma SoundFacts(b: Board, s: State)
    requires Sound(b, s)
    ensures !s.pch.flags.readyCpld
  {
  }

  lemma BothFacts(b: Board, s: State, x: State, n: nat, promoted: nat)
    requires WorksOnBoth(s, x, n, promoted) && BothReady(b, x)
    ensures Count(x.log, CpldPromoted) == Count(s.log, CpldPromoted) + promoted
    ensures Count(x.log, CpldExamined) == Count(s.log, CpldExamined) + n && DataKept(s, x)
    ensures x.mode == Running ==>
              && MayLeave(b, x, Bmc) && MayLeave(b, x, Pch) && !x.bmc.flags.readyCpld && x.pch.intent == NONE
              && x.provisioned == s.provisioned
  {
    hide Count, Ready, Adds, Leveled, DataKept;
  }

  lemma DataKeptInReset(s: State, t: State, x: State, r: State)
    requires t.page == s.page && DataKept(t, x) && r.page == x.page
    requires Count(t.log, Decommissioned) == Count(s.log, Decommissioned)
    requires Count(r.log, Decommissioned) == Count(x.log, Decommissioned)
    ensures DataKept(s, r)
  {
    hide OnlyCleared, Count;
  }

  lemma StoppedSafe(b: Board, s: State)
    requires Sound(b, s) && s.mode != Running
    ensures Safe(b, s)
  {
  }

  lemma ResetSettled(s: State, t: State, p: State, x: State, r: State, n: nat)
    requires s.provisioned && s.mode == Running && t.mode == Running && t.provisioned
    requires t.bmc.intent == s.bmc.intent && t.pch.intent == s.pch.intent && n <= (if t.bmc.intent.Cpld() then 1 else 0)
    requires x.mode != Astray ==> SameRequest(t, p) && IntentSettled(p, x, n) && r.bmc.intent == x.bmc.intent
    requires r.mode != Astray ==> x.mode != Astray
    requires Count(r.log, CpldExamined) == Count(s.log, CpldExamined) + n
    requires r.mode == Running ==> r.pch.intent == NONE && r.provisioned
    ensures ResetSettles(s, r, n)
  {
    hide Count;
  }

  // A platform reset in any state that allows one
  lemma PlatformResetKeeps(b: Board, s: State, e: Pins)
    requires Sized(b, s) && Sound(b, s) && s.mode == Running && (s.bmc.flags.readyCpld ==> s.provisioned)
    ensures var r := PlatformReset(b, s, e);
            && Safe(b, r) && (Count(r.log, CpldPromoted) != Count(s.log, CpldPromoted) ==> s.bmc.flags.readyCpld) && DataKept(s, r)
  {
    hide *;
    if s.provisioned {
      var n := ProvisionedReset(b, s, e);
    } else {
      UnprovisionedReset(b, s, e);
    }
  }

  lemma HoldSound(b: Board, s: State, dev: Dev)
    requires Sized(b, s) && Sound(b, s)
    ensures var t := Hold(s, dev);
            && Sized(b, t) && Sound(b, t) && Leaves(s, t) && t.mode == s.mode && Inside(t.log, dev) && t.bmc.flags == s.bmc.flags
  {
    hide GoodLog, Leveled, Leaves, Inside, MayLeave, Unprovisioned;
    HoldKeeps(b, s, dev);
    LeavingKeepsLevels(s, Hold(s, dev));
  }

  // The end of a reset of one component
  lemma LeaveAlone(b: Board, s: State, r: State)
    requires Sound(b, s) && GoodLog(b, r.log) && Leaves(s, r) && (r.mode == Running ==> !s.bmc.flags.readyCpld)
    ensures Safe(b, r) && Count(r.log, CpldPromoted) == Count(s.log, CpldPromoted) && r.page == s.page
    ensures Count(r.log, Decommissioned) == Count(s.log, Decommissioned)
  {
    hide GoodLog, Leveled, Count;
    LeavingKeepsLevels(s, r);
  }

  lemma BmcOnlyResetIs(b: Board, s: State, force: bool)
    requires Sized(b, s)
    ensures Sized(b, Hold(s, Bmc))
    ensures var r := OperateOn(b, Hold(s, Bmc), Bmc, force);
            BmcOnlyReset(b, s, force) == if r.mode == Running then EnterT0BmcOnly(r) else r
  {
    hide OperateOn, EnterT0BmcOnly;
  }

  lemma BmcOnlyResetKeeps(b: Board, s: State, force: bool)
    requires Sized(b, s) && Safe(b, s) && s.mode == Running
    ensures var r := BmcOnlyReset(b, s, force);
            Safe(b, r) && Count(r.log, CpldPromoted) == Count(s.log, CpldPromoted) && DataKept(s, r)
  {
    SafeFacts(b, s);
    BmcOnlyResetIs(b, s, force);
    hide *;
    var t := Hold(s, Bmc);
    HoldSound(b, s, Bmc);
    SameMode(s, t);
    var x := OperateOn(b, t, Bmc, force);
    var n := OperateOnBmcWorks(b, t, force);
    AfterBmc(b, t, x, n);
    if x.mode == Running {
      EnterT0BmcOnlyKeeps(b, x);
      LeaveAlone(b, x, EnterT0BmcOnly(x));
    } else {
      StoppedSafe(b, x);
    }
    DataKeptInReset(s, t, x, BmcOnlyReset(b, s, force));
  }

  lemma SafeFacts(b: Board, s: State)
    requires Safe(b, s)
    ensures Sound(b, s) && (s.mode == Running ==> !s.bmc.flags.readyCpld)
  {
    hide Sound;
  }

  lemma AfterBmc(b: Board, t: State, x: State, n: nat)
    requires Sound(b, t) && Works(t, x, Bmc, n) && !t.bmc.flags.readyCpld && (x.mode == Running ==> Ready(b, x, Bmc))
    ensures Sound(b, x) && !x.bmc.flags.readyCpld && Count(x.log, CpldPromoted) == Count(t.log, CpldPromoted) && DataKept(t, x)
    ensures x.mode == Running ==> MayLeave(b, x, Bmc)
  {
    WorksFacts(t, x, Bmc, n);
    OneIsBoth(t, x, Bmc, n);
    WorksSound(b, t, x, n, 0);
    hide Adds, Leveled, Count, Ready, Sound, DataKept;
  }

  lemma PchOnlyResetIs(b: Board, s: State, force: bool)
    requires Sized(b, s)
    ensures Sized(b, Hold(s, Pch))
    ensures var r := OperateOn(b, Hold(s, Pch), Pch, force);
            PchOnlyReset(b, s, force) == if r.mode == Running then BootPch(r) else r
  {
    hide OperateOn, BootPch;
  }

  lemma PchOnlyResetKeeps(b: Board, s: State, force: bool)
    requires Sized(b, s) && Safe(b, s) && s.mode == Running
    ensures var r := PchOnlyReset(b, s, force);
            Safe(b, r) && Count(r.log, CpldPromoted) == Count(s.log, CpldPromoted) && DataKept(s, r)
  {
    SafeFacts(b, s);
    PchOnlyResetIs(b, s, force);
    hide *;
    var t := Hold(s, Pch);
    HoldSound(b, s, Pch);
    SameMode(s, t);
    var x := OperateOn(b, t, Pch, force);
    OperateOnPchWorks(b, t, force);
    AfterPch(b, t, x);
    if x.mode == Running {
      BootPchKeeps(b, x);
      LeaveAlone(b, x, BootPch(x));
    } else {
      StoppedSafe(b, x);
    }
    DataKeptInReset(s, t, x, PchOnlyReset(b, s, force));
  }

  lemma AfterPch(b: Board, t: State, x: State)
    requires Sound(b, t) && Works(t, x, Pch, 0) && !t.bmc.flags.readyCpld && (x.mode == Running ==> Ready(b, x, Pch))
    ensures Sound(b, x) && !x.bmc.flags.readyCpld && Count(x.log, CpldPromoted) == Count(t.log, CpldPromoted) && DataKept(t, x)
    ensures x.mode == Running ==> MayLeave(b, x, Pch)
  {
    OtherOf();
    WorksFacts(t, x, Pch, 0);
    OneIsBoth(t, x, Pch, 0);
    WorksSound(b, t, x, 0, 0);
    hide Adds, Leveled, Count, Ready, Sound, DataKept;
  }

  // ---------------------------------------------------------------- T0

  // A step that changes no log: what it may do to the two sides
  lemma QuietStep(b: Board, s: State, r: State)
    requires Safe(b, s) && r.log == s.log && r.mode == s.mode
    requires Leveled(s.bmc) ==> Leveled(r.bmc)
    requires Leveled(s.pch) ==> Leveled(r.pch)
    requires r.bmc.flags.readyCpld == s.bmc.flags.readyCpld && r.pch.flags.readyCpld == s.pch.flags.readyCpld
    ensures Safe(b, r)
  {
    hide GoodLog, Leveled;
  }

  // What each poll of the T0 loop keeps, with the number of CPLD capsules promoted unchanged
  ghost predicate Keeps(b: Board, s: State, r: State) {
    Safe(b, r) && Count(r.log, CpldPromoted) == Count(s.log, CpldPromoted) && DataKept(s, r)
  }

  lemma KeepsQuietly(b: Board, s: State, r: State)
    requires Safe(b, s) && r.log == s.log && r.mode == s.mode
    requires Leveled(s.bmc) ==> Leveled(r.bmc)
    requires Leveled(s.pch) ==> Leveled(r.pch)
    requires r.bmc.flags.readyCpld == s.bmc.flags.readyCpld && r.pch.flags.readyCpld == s.pch.flags.readyCpld
    requires r.page == s.page
    ensures Keeps(b, s, r)
  {
    hide Leveled, Safe, Count;
    QuietStep(b, s, r);
    SameData(s, r);
  }

  lemma KeepsByReset(b: Board, s: State, t: State, e: Pins)
    requires Sized(b, t) && Safe(b, t) && t.mode == Running && t.log == s.log && t.page == s.page
    ensures Keeps(b, s, PlatformReset(b, t, e))
  {
    hide Safe, Count, PlatformReset, Sized;
    SafeFacts(b, t);
    PlatformResetKeeps(b, t, e);
  }

  lemma LevelBits(side: Side)
    requires Leveled(side) && side.level & 0x1C != 0
    ensures Leveled(side.(flags := CLEAR.(requireWdt := true)))
  {
  }

  lemma ResetLevelKeeps(s: State, dev: Dev)
    ensures var r := ResetLevel(s, dev);
            && Leveled(Of(r, dev)) && Of(r, Other(dev)) == Of(s, Other(dev)) && Of(r, dev).flags == Of(s, dev).flags
            && r.log == s.log && r.mode == s.mode && r.page == s.page
  {
  }

  lemma TriggerWdtKeeps(b: Board, s: State, dev: Dev, e: Pins)
    requires Sized(b, s) && Safe(b, s) && s.mode == Running
    ensures Keeps(b, s, TriggerWdt(b, s, dev, e))
  {
    var side := Of(s, dev);
    var t := Put(s, dev, side.(flags := CLEAR.(requireWdt := true)));
    assert Sized(b, t);
    assert TriggerWdt(b, s, dev, e) == if side.level & 0x1C != 0 then PlatformReset(b, t, e) else s.(enabled := s.enabled - Timers(dev));
    hide Sized, Leveled, Safe, Keeps, PlatformReset;
    if side.level & 0x1C != 0 {
      if Leveled(side) { LevelBits(side); }
      RequestKeeps(b, s, t, dev);
      KeepsByReset(b, s, t, e);
    } else {
      KeepsQuietly(b, s, s.(enabled := s.enabled - Timers(dev)));
    }
  }

  // Asking for a watchdog recovery
  lemma RequestKeeps(b: Board, s: State, t: State, dev: Dev)
    requires Safe(b, s) && s.mode == Running && t == Put(s, dev, Of(s, dev).(flags := CLEAR.(requireWdt := true)))
    requires Leveled(Of(s, dev)) ==> Leveled(Of(t, dev))
    ensures Safe(b, t)
  {
    SafeFacts(b, s);
    SoundFacts(b, s);
    hide Sound, Leveled;
    QuietStep(b, s, t);
  }

  lemma BmcWatchdogKeeps(b: Board, s: State, expired: bool, chk: Checkpoint, e: Pins)
    requires Sized(b, s) && Safe(b, s) && s.mode == Running
    ensures Keeps(b, s, BmcWatchdog(b, s, expired, chk, e))
  {
    hide Sized, Leveled, Safe, Keeps, TriggerWdt, ResetLevel;
    TriggerWdtKeeps(b, s, Bmc, e);
    ResetLevelKeeps(s, Bmc);
    KeepsQuietly(b, s, s);
    KeepsQuietly(b, s, ResetLevel(s, Bmc).(booted := s.booted + {BmcPart}, armed := s.armed - {BmcTimer}));
  }

  lemma MeWatchdogKeeps(b: Board, s: State, expired: bool, ready: bool, e: Pins)
    requires Sized(b, s) && Safe(b, s) && s.mode == Running
    ensures Keeps(b, s, MeWatchdog(b, s, expired, ready, e))
  {
    hide Sized, Leveled, Safe, Keeps, TriggerWdt, ResetLevel;
    TriggerWdtKeeps(b, s, Pch, e);
    KeepsQuietly(b, s, s);
    var t := s.(booted := s.booted + {Me}, armed := s.armed - {MeTimer});
    ResetLevelKeeps(t, Pch);
    KeepsQuietly(b, s, t);
    KeepsQuietly(b, s, ResetLevel(t, Pch));
  }

  // Boot progress raises no level and requests nothing
  lemma BiosProgressKeeps(b: Board, s: State, chk: Checkpoint)
    requires Safe(b, s)
    ensures var t := BiosProgress(s, chk); Safe(b, t) && t.log == s.log && t.mode == s.mode && t.page == s.page
  {
    hide Leveled, Safe, ResetLevel;
    var t := BiosProgress(s, chk);
    var u := s.(booted := s.booted + {Obb}, armed := s.armed - {AcmBiosTimer});
    ResetLevelKeeps(u, Pch);
    QuietStep(b, s, t);
  }

  lemma KeepsFrom(b: Board, s: State, t: State, r: State)
    requires t.log == s.log && t.page == s.page && Keeps(b, t, r)
    ensures Keeps(b, s, r)
  {
    hide Safe, Count, OnlyCleared;
  }

  lemma AcmBiosWatchdogKeeps(b: Board, s: State, expired: bool, bios: Checkpoint, acm: Checkpoint, e: Pins)
    requires Sized(b, s) && Safe(b, s) && s.mode == Running
    ensures Keeps(b, s, AcmBiosWatchdog(b, s, expired, bios, acm, e))
  {
    BiosProgressKeeps(b, s, bios);
    BiosProgressFits(b, s, bios);
    hide Sized, Leveled, Safe, TriggerWdt, BiosProgress, Keeps;
    var t := BiosProgress(s, bios);
    TriggerWdtKeeps(b, t, Pch, e);
    KeepsQuietly(b, s, s);
    KeepsQuietly(b, t, t);
    KeepsFrom(b, s, t, t);
    KeepsFrom(b, s, t, TriggerWdt(b, t, Pch, e));
  }

  lemma BiosProgressFits(b: Board, s: State, chk: Checkpoint)
    requires Sized(b, s)
    ensures Sized(b, BiosProgress(s, chk))
  {
  }

  lemma PlatformResetSeenKeeps(b: Board, s: State, counting: bool)
    requires Safe(b, s)
    ensures Keeps(b, s, PlatformResetSeen(s, counting))
  {
    var r := PlatformResetSeen(s, counting);
    IntentKeepsLevel(s.bmc, r.bmc.intent);
    IntentKeepsLevel(s.pch, r.pch.intent);
    hide Leveled, Safe, Keeps;
    KeepsQuietly(b, s, r);
  }

  lemma TakenKeeps(b: Board, s: State, dev: Dev, pending: bool)
    requires Sized(b, s) && Safe(b, s)
    ensures var r := Taken(s, dev, pending);
            Sized(b, r) && Safe(b, r) && r.mode == s.mode && r.log == s.log && r.provisioned == s.provisioned && r.page == s.page
  {
    SidePending(Of(s, dev), pending);
    hide Leveled, Safe;
    QuietStep(b, s, Taken(s, dev, pending));
  }

  lemma SidePending(side: Side, pending: bool)
    ensures Leveled(side.(intent := NONE, flags := side.flags.(pending := side.flags.pending || pending))) <==> Leveled(side)
  {
  }

  lemma PchIntentKeeps(b: Board, s: State, e: Pins)
    requires Sized(b, s) && Safe(b, s) && s.mode == Running
    ensures Keeps(b, s, PchIntent(b, s, e))
  {
    hide Sized, Safe, PchOnlyReset, PlatformReset, Count, Taken, PchRefused;
    TakenKeeps(b, s, Pch, false);
    TakenKeeps(b, s, Pch, true);
    var t := if s.pch.flags.recoveryFailed && s.pch.intent.pchRecovery then Taken(s, Pch, true) else s;
    PchOnlyResetKeeps(b, t, e.forcePch);
    KeepsByReset(b, s, t, e);
  }

  lemma BmcIntentKeeps(b: Board, s: State, e: Pins)
    requires Sized(b, s) && Safe(b, s) && s.mode == Running
    ensures Keeps(b, s, BmcIntent(b, s, e))
  {
    hide Sized, Safe, BmcOnlyReset, PlatformReset, Count, Taken, BmcRefused;
    TakenKeeps(b, s, Bmc, false);
    TakenKeeps(b, s, Bmc, true);
    var t := if s.bmc.flags.recoveryFailed && s.bmc.intent.bmcRecovery then Taken(s, Bmc, true) else s;
    TakenKeeps(b, t, Bmc, false);
    BmcOnlyResetKeeps(b, t, e.forceBmc);
    KeepsByReset(b, s, t, e);
  }

  lemma BmcResetKeeps(b: Board, s: State, seen: bool, e: Pins)
    requires Sized(b, s) && Safe(b, s) && s.mode == Running
    ensures Keeps(b, s, BmcReset(b, s, seen, e))
  {
    hide Sized, Leveled, Safe, BmcOnlyReset, Count;
    KeepsQuietly(b, s, s);
    BmcOnlyResetKeeps(b, s, e.forceBmc);
  }

  // Only the routine after an update promotes a CPLD capsule
  lemma PostUpdateKeeps(b: Board, s: State, e: Pins)
    requires Sized(b, s) && Safe(b, s) && s.mode == Running && s.provisioned
    ensures var r := PostUpdate(b, s, e);
            && Safe(b, r) && (Count(r.log, CpldPromoted) != Count(s.log, CpldPromoted) ==> AllBooted(s) && s.cpldPending)
            && DataKept(s, r)
  {
    SafeFacts(b, s);
    var t := if s.cpldPending then s.(bmc := s.bmc.(flags := s.bmc.flags.(readyCpld := true))) else s;
    assert Sized(b, t) && t.mode == Running && t.provisioned && t.log == s.log;
    PromotionDue(b, s, t);
    hide Sized, Leveled, Safe, Sound, PlatformReset, Count, DataKept;
    PlatformResetKeeps(b, t, e);
    NothingDone(b, s, t, e);
  }

  lemma NothingDone(b: Board, s: State, t: State, e: Pins)
    requires Sized(b, t) && t.page == s.page && t.log == s.log
    ensures DataKept(s, s) && (DataKept(t, PlatformReset(b, t, e)) ==> DataKept(s, PlatformReset(b, t, e)))
  {
    SameData(s, s);
    hide PlatformReset, OnlyCleared;
  }

  lemma PromotionDue(b: Board, s: State, t: State)
    requires Sound(b, s) && (t == s || t == s.(bmc := s.bmc.(flags := s.bmc.flags.(readyCpld := true))))
    ensures Sound(b, t)
  {
    hide GoodLog;
  }

  lemma PollKeeps(b: Board, s: State, i: Input, e: Pins)
    requires Sized(b, s) && Safe(b, s) && s.mode == Running && s.provisioned && !i.PollPostUpdate?
    ensures Keeps(b, s, Poll(b, s, i, e))
  {
    hide *;
    PollIs(b, s, i, e);
    match i
    case PollPlatformReset(counting) => PlatformResetSeenKeeps(b, s, counting);
    case PollBmcTimer(expired, chk) => BmcWatchdogKeeps(b, s, expired, chk, e);
    case PollMeTimer(expired, ready) => MeWatchdogKeeps(b, s, expired, ready, e);
    case PollAcmBiosTimer(expired, bios, acm) => AcmBiosWatchdogKeeps(b, s, expired, bios, acm, e);
    case PollBmcIntent => BmcIntentKeeps(b, s, e);
    case PollPchIntent => PchIntentKeeps(b, s, e);
    case PollBmcReset(seen) => BmcResetKeeps(b, s, seen, e);
    case _ => KeepsQuietly(b, s, s);
  }

  lemma PollIs(b: Board, s: State, i: Input, e: Pins)
    requires Sized(b, s)
    ensures Poll(b, s, i, e) == match i
      case PollPlatformReset(counting) => PlatformResetSeen(s, counting)
      case PollBmcTimer(expired, chk) => BmcWatchdog(b, s, expired, chk, e)
      case PollMeTimer(expired, ready) => MeWatchdog(b, s, expired, ready, e)
      case PollAcmBiosTimer(expired, bios, acm) => AcmBiosWatchdog(b, s, expired, bios, acm, e)
      case PollBmcIntent => BmcIntent(b, s, e)
      case PollPchIntent => PchIntent(b, s, e)
      case PollBmcReset(seen) => BmcReset(b, s, seen, e)
      case PollPostUpdate => PostUpdate(b, s, e)
      case _ => s
  {
    hide PlatformResetSeen, BmcWatchdog, MeWatchdog, AcmBiosWatchdog, BmcIntent, PchIntent, BmcReset, PostUpdate, Sized;
  }
}
