/**
 Boot progress and watchdog timers: which timers run after a reset and what their expiry does, how a boot
 completes, and what a completed boot leads to.
 */
module PlatformTimers {
  import opened NorFlash
  import opened Ufm
  import opened Authentication
  import opened PfmValidation
  import opened CapsuleValidation
  import opened FlashValidation
  import opened Platform
  import opened PlatformLog
  import opened PlatformWork
  import opened PlatformSteps
  import opened PlatformSafety
  import opened PlatformEffects

  // ---------------------------------------------------------------- what T-1 work does to timers

  // Boot progress and armed timers are as before, and no timer is turned off
  predicate SameProgress(s: State, r: State) { r.booted == s.booted && r.armed == s.armed && s.enabled <= r.enabled }

  lemma WdtRecoveryProgress(b: Board, s: State, dev: Dev)
    requires Sized(b, s)
    ensures SameProgress(s, WdtRecovery(b, s, dev))
  {
    hide Sized, ValidAt, CanRecoverAtLevel, WdtImage, Recovered, Of;
  }

  lemma ActiveUpdateProgress(b: Board, s: State, dev: Dev, i: Intent)
    requires Sized(b, s)
    ensures SameProgress(s, ActiveUpdate(b, s, dev, i))
  {
    hide Sized, CanUpdate, UpdatedImage, Timers, Of;
  }

  lemma ExaminedProgress(b: Board, s: State, dev: Dev, v: Verdict)
    requires Sized(b, s) && (v.CancelsKey? ==> v.id <= 127)
    ensures SameProgress(s, Examined(b, s, dev, v))
  {
    hide Sized, PageAfter, Of;
  }

  lemma FirmwareUpdateProgress(b: Board, s: State, dev: Dev, i: Intent)
    requires Sized(b, s)
    ensures SameProgress(s, FirmwareUpdate(b, s, dev, i))
  {
    StagingFits(b, s, dev);
    var v := Examine(b, s, dev, b.Map(dev).Staging(), if dev == Bmc then i.OnlyBmcFw() else i.OnlyPchFw());
    ActiveUpdateProgress(b, s, dev, i);
    ExaminedProgress(b, s, dev, v);
    hide Sized, Examine, ActiveUpdate, Examined, SameProgress, Intent.OnlyBmcFw, Intent.OnlyPchFw;
  }

  lemma CpldIntentProgress(b: Board, s: State, i: Intent)
    requires Sized(b, s)
    ensures SameProgress(s, ActOnCpldIntent(b, s, i))
  {
    StagingFits(b, s, Bmc);
    var t := Noted(s, CpldExamined);
    NotingKeepsSize(b, s, CpldExamined);
    StagingFits(b, t, Bmc);
    ExaminedProgress(b, t, Bmc, Examine(b, s, Bmc, b.StagedCpld(), i.OnlyCpld()));
    hide Sized, Examine, Examined, Intent.OnlyCpld, Intent.PchFw;
  }

  lemma ActOnBmcProgress(b: Board, s: State)
    requires Sized(b, s)
    ensures SameProgress(s, ActOnBmc(b, s))
  {
    ClearingIntent(b, s, Bmc);
    var t := Put(s, Bmc, Of(s, Bmc).(intent := NONE));
    FirmwareUpdateProgress(b, t, Bmc, s.bmc.intent);
    var f := if s.bmc.intent.BmcFw() then FirmwareUpdate(b, t, Bmc, s.bmc.intent) else t;
    CpldIntentProgress(b, f, s.bmc.intent);
    hide Sized, FirmwareUpdate, ActOnCpldIntent, Intent.BmcFw, Intent.Cpld, Works;
  }

  lemma ActOnPchProgress(b: Board, s: State)
    requires Sized(b, s)
    ensures SameProgress(s, ActOnPch(b, s))
  {
    ClearingIntent(b, s, Pch);
    FirmwareUpdateProgress(b, Put(s, Pch, Of(s, Pch).(intent := NONE)), Pch, s.pch.intent);
    hide Sized, FirmwareUpdate, Intent.PchFw, Works;
  }

  lemma AuthenticatedProgress(b: Board, s: State, dev: Dev, force: bool)
    requires Sized(b, s)
    ensures SameProgress(s, Authenticated(b, s, dev, force))
  {
    hide Sized, Workable, Authenticate, PfmSvn, Of;
  }

  // The work on one flash stops its own timers and forgets its boot, and no more
  lemma OperateOnProgress(b: Board, s: State, dev: Dev, force: bool)
    requires Sized(b, s)
    ensures SameProgress(Quieted(s, dev), OperateOn(b, s, dev, force))
  {
    var q := Quieted(s, dev);
    QuietedWorks(b, s, dev);
    WdtRecoveryProgress(b, q, dev);
    var t := BeforeIntents(b, s, dev);
    ActOnBmcProgress(b, t);
    ActOnPchProgress(b, t);
    var a := BeforeAuthentication(b, s, dev);
    AuthenticatedProgress(b, a, dev, force);
    OperateOnIs(b, s, dev, force);
    BeforeBmc(b, s);
    BeforePch(b, s);
    hide Sized, Quieted, WdtRecovery, ActOnBmc, ActOnPch, Authenticated, OperateOn, BeforeAuthentication, Works;
  }

  lemma PrepForOobProgress(b: Board, s: State)
    requires Sized(b, s)
    ensures SameProgress(s, PrepForOob(b, s))
  {
    StagingFits(b, s, Bmc);
    ExaminedProgress(b, s, Bmc, Examine(b, s, Bmc, b.StagedPch(), s.bmc.intent.OnlyPchFw()));
    hide Sized, Examine, Examined, CanHandOver, CopiedTo, HandedOver, Intent.PchFw, Intent.OnlyPchFw;
  }

  lemma PendingProgress(b: Board, s: State, dev: Dev)
    requires Sized(b, s)
    ensures SameProgress(s, ProcessPending(b, s, dev))
  {
    PendingCases(b, s, dev);
    hide Sized, PendingUpdate, CpldSvn, SvnWritten, Of;
  }

  lemma PreparedProgress(b: Board, s: State)
    requires Sized(b, s)
    ensures SameProgress(s, Prepared(b, s))
  {
    var t := PrepForOob(b, s);
    PrepForOobProgress(b, s);
    PendingProgress(b, t, Bmc);
    PendingProgress(b, ProcessPending(b, t, Bmc), Pch);
    hide Sized, PrepForOob, ProcessPending;
  }

  // After T-1 on both flashes no component counts as booted and no timer runs
  lemma Tmin1Progress(b: Board, s: State, e: Pins)
    requires Sized(b, s) && s.mode == Running
    ensures var r := Tmin1(b, s, e); r.mode == Running ==> r.booted == {} && r.armed == {} && s.enabled <= r.enabled
  {
    hide *;
    Tmin1Is(b, s, e);
    PreparedProgress(b, s);
    var t := Prepared(b, s);
    OperateOnBothIs(b, t, e);
    OperateOnProgress(b, t, Bmc, e.forceBmc);
    var x := OperateOn(b, t, Bmc, e.forceBmc);
    OperateOnProgress(b, x, Pch, e.forcePch);
    QuietedBoth(s, t, x, OperateOn(b, x, Pch, e.forcePch));
  }

  lemma QuietedBoth(s: State, t: State, x: State, r: State)
    requires SameProgress(s, t) && SameProgress(Quieted(t, Bmc), x) && SameProgress(Quieted(x, Pch), r)
    ensures r.booted == {} && r.armed == {} && s.enabled <= r.enabled
  {
    AllTimers(r.armed);
    AllParts(r.booted);
  }

  lemma AllTimers(a: set<Timer>)
    requires BmcTimer !in a && MeTimer !in a && AcmBiosTimer !in a
    ensures a == {}
  {
    forall x: Timer ensures x !in a {
      assert x == BmcTimer || x == MeTimer || x == AcmBiosTimer;
    }
  }

  lemma AllParts(a: set<Part>)
    requires BmcPart !in a && Me !in a && Acm !in a && Ibb !in a && Obb !in a
    ensures a == {}
  {
    forall x: Part ensures x !in a {
      assert x == BmcPart || x == Me || x == Acm || x == Ibb || x == Obb;
    }
  }

  // ---------------------------------------------------------------- timers after a reset

  // A component that leaves a reset of a provisioned platform is watched exactly when its recovery image is
  // valid, the BMC only if the PCH flash did not fail altogether; the timer of ACM and BIOS waits for the
  // PCH's own reset. Nothing counts as booted.
  lemma ResetArms(b: Board, s: State, e: Pins)
    requires Sized(b, s) && Sound(b, s) && s.mode == Running && s.provisioned
    ensures var r := PlatformReset(b, s, e);
            r.mode == Running ==>
              && (BmcTimer in r.armed <==> !r.bmc.held && !r.bmc.flags.recoveryFailed && !r.pch.flags.allFailed)
              && (MeTimer in r.armed <==> !r.pch.held && !r.pch.flags.recoveryFailed) && AcmBiosTimer !in r.armed
              && r.booted == {} && s.enabled <= r.enabled
  {
    hide *;
    PlatformResetIs(b, s, e);
    HeldSound(b, s);
    SameMode(s, HoldBoth(s));
    SoundFacts(b, HoldBoth(s));
    BothHeld(s);
    var t := HoldBoth(s);
    HoldingKeeps(s);
    var n, p := Tmin1Works(b, t, e);
    StillHeld(t, Tmin1(b, t, e), n, p);
    KeepsReady(t, Tmin1(b, t, e), n, p);
    Tmin1Progress(b, t, e);
    if Tmin1(b, t, e).mode == Running {
      LeavingArms(Tmin1(b, t, e));
    }
  }

  lemma HoldingKeeps(s: State)
    ensures SameProgress(s, HoldBoth(s))
  {
  }

  lemma LeavingArms(x: State)
    requires x.bmc.held && x.pch.held && x.mode == Running && x.provisioned && x.armed == {} && x.booted == {}
    ensures var r := EnterT0(x);
            && r.enabled == x.enabled && r.booted == {}
            && (r.mode == Running ==>
              && (BmcTimer in r.armed <==> !r.bmc.held && !r.bmc.flags.recoveryFailed && !r.pch.flags.allFailed)
              && (MeTimer in r.armed <==> !r.pch.held && !r.pch.flags.recoveryFailed) && AcmBiosTimer !in r.armed)
  {
    ArmsBmc(x);
    ArmsPch(BootBmc(x));
    hide BootBmc, BootPch;
  }

  lemma ArmsBmc(x: State)
    requires x.bmc.held
    ensures var r := BootBmc(x);
            && r.enabled == x.enabled && r.booted == x.booted && r.mode == x.mode && r.provisioned == x.provisioned && r.pch == x.pch
            && r.bmc.flags == x.bmc.flags && (r.bmc.held <==> x.bmc.flags.allFailed)
            && r.armed == x.armed + if !r.bmc.held && x.provisioned && !x.bmc.flags.recoveryFailed && !x.pch.flags.allFailed then {BmcTimer} else {}
  {
  }

  lemma ArmsPch(x: State)
    requires x.pch.held
    ensures var r := BootPch(x);
            && r.enabled == x.enabled && r.booted == x.booted && r.mode == x.mode && r.bmc == x.bmc && r.pch.flags == x.pch.flags
            && r.armed == x.armed + if !r.pch.held && x.provisioned && !x.pch.flags.recoveryFailed then {MeTimer} else {}
  {
  }

  // A reset of the BMC alone starts its timer exactly when the BMC leaves it and the PCH flash did not fail
  // altogether; a reset of the PCH alone starts the timer of ME exactly when the PCH leaves it with a valid
  // recovery image. The timers of the other component run on.
  lemma AloneArms(b: Board, s: State, force: bool)
    requires Sized(b, s) && s.mode == Running && s.provisioned
    ensures var r := BmcOnlyReset(b, s, force);
            r.mode == Running ==>
              && (BmcTimer in r.armed <==> !r.bmc.held && !r.pch.flags.allFailed) && r.booted == s.booted - {BmcPart}
              && (forall t | t != BmcTimer :: t in r.armed <==> t in s.armed) && s.enabled <= r.enabled
    ensures var r := PchOnlyReset(b, s, force);
            r.mode == Running ==>
              && (MeTimer in r.armed <==> !r.pch.held && !r.pch.flags.recoveryFailed) && AcmBiosTimer !in r.armed
              && r.booted == s.booted - {Me, Acm, Ibb, Obb} && (BmcTimer in r.armed <==> BmcTimer in s.armed) && s.enabled <= r.enabled
  {
    hide *;
    HeldNow(s, Bmc);
    HeldNow(s, Pch);
    HoldingOne(s, Bmc);
    HoldingOne(s, Pch);
    BmcOnlyResetIs(b, s, force);
    PchOnlyResetIs(b, s, force);
    OperateOnProgress(b, Hold(s, Bmc), Bmc, force);
    OperateOnProgress(b, Hold(s, Pch), Pch, force);
    var n := OperateOnBmcWorks(b, Hold(s, Bmc), force);
    OperateOnPchWorks(b, Hold(s, Pch), force);
    BmcAloneArms(s, OperateOn(b, Hold(s, Bmc), Bmc, force), n);
    PchAloneArms(s, OperateOn(b, Hold(s, Pch), Pch, force));
  }

  lemma HoldingOne(s: State, dev: Dev)
    ensures SameProgress(s, Hold(s, dev)) && Hold(s, dev).provisioned == s.provisioned
  {
  }

  lemma BmcAloneArms(s: State, x: State, n: nat)
    requires SameProgress(Quieted(Hold(s, Bmc), Bmc), x) && Works(Hold(s, Bmc), x, Bmc, n) && s.provisioned && Of(Hold(s, Bmc), Bmc).held
    ensures var r := if x.mode == Running then EnterT0BmcOnly(x) else x;
            r.mode == Running ==>
              && (BmcTimer in r.armed <==> !r.bmc.held && !r.pch.flags.allFailed) && r.booted == s.booted - {BmcPart}
              && (forall t | t != BmcTimer :: t in r.armed <==> t in s.armed) && s.enabled <= r.enabled
  {
    hide Adds, Leveled, Count, DataKept;
  }

  lemma PchAloneArms(s: State, x: State)
    requires SameProgress(Quieted(Hold(s, Pch), Pch), x) && Works(Hold(s, Pch), x, Pch, 0) && s.provisioned && Of(Hold(s, Pch), Pch).held
    ensures var r := if x.mode == Running then BootPch(x) else x;
            r.mode == Running ==>
              && (MeTimer in r.armed <==> !r.pch.held && !r.pch.flags.recoveryFailed) && AcmBiosTimer !in r.armed
              && r.booted == s.booted - {Me, Acm, Ibb, Obb} && (BmcTimer in r.armed <==> BmcTimer in s.armed) && s.enabled <= r.enabled
  {
    hide Adds, Leveled, Count, DataKept;
  }

  // ---------------------------------------------------------------- a released component that hangs

  // The state in which a recovery of a component is requested
  function Asked(s: State, dev: Dev): State { Put(s, dev, Of(s, dev).(flags := CLEAR.(requireWdt := true))) }

  // A component that leaves a platform reset under watch, and whose timer was not turned off, is recovered if
  // it hangs: unless three recoveries were spent on it, the expiry of its timer resets the platform with a
  // recovery requested
  lemma ReleasedIsWatched(b: Board, s: State, e: Pins, f: Pins)
    requires Sized(b, s) && Sound(b, s) && s.mode == Running && s.provisioned && !s.bmc.flags.readyCpld
    ensures var r := PlatformReset(b, s, e);
            && Sized(b, Asked(r, Bmc)) && Sized(b, Asked(r, Pch))
            && (r.mode == Running && BmcTimer in s.enabled && !r.bmc.held && !r.bmc.flags.recoveryFailed && !r.pch.flags.allFailed
                && r.bmc.recoveries < 3 ==>
                  BmcWatchdog(b, r, true, NoMessage, f) == PlatformReset(b, Asked(r, Bmc), f) && Asked(r, Bmc).bmc.flags.requireWdt)
            && (r.mode == Running && MeTimer in s.enabled && !r.pch.held && !r.pch.flags.recoveryFailed && r.pch.recoveries < 3 ==>
                  MeWatchdog(b, r, true, false, f) == PlatformReset(b, Asked(r, Pch), f) && Asked(r, Pch).pch.flags.requireWdt)
  {
    hide *;
    ResetArms(b, s, e);
    PlatformResetKeeps(b, s, e);
    var r := PlatformReset(b, s, e);
    AskedFits(b, r);
    if r.mode == Running && BmcTimer in s.enabled && !r.bmc.held && !r.bmc.flags.recoveryFailed && !r.pch.flags.allFailed {
      assert BmcTimer in r.enabled;
      ExpiryAsks(b, r, Bmc, f);
    }
    if r.mode == Running && MeTimer in s.enabled && !r.pch.held && !r.pch.flags.recoveryFailed {
      assert MeTimer in r.enabled;
      ExpiryAsks(b, r, Pch, f);
    }
  }

  lemma AskedFits(b: Board, r: State)
    requires Sized(b, r)
    ensures Sized(b, Asked(r, Bmc)) && Sized(b, Asked(r, Pch))
    ensures Asked(r, Bmc).bmc.flags.requireWdt && Asked(r, Pch).pch.flags.requireWdt
  {
  }

  lemma ExpiryAsks(b: Board, r: State, dev: Dev, f: Pins)
    requires Sized(b, r) && Safe(b, r) && (if dev == Bmc then BmcTimer else MeTimer) in r.enabled
    requires (if dev == Bmc then BmcTimer else MeTimer) in r.armed
    ensures Sized(b, Asked(r, dev))
    ensures dev == Bmc && r.bmc.recoveries < 3 ==> BmcWatchdog(b, r, true, NoMessage, f) == PlatformReset(b, Asked(r, Bmc), f)
    ensures dev == Pch && r.pch.recoveries < 3 ==> MeWatchdog(b, r, true, false, f) == PlatformReset(b, Asked(r, Pch), f)
  {
    WatchdogHasThreeTries(b, r, dev, f, f);
    AskedFits(b, r);
    hide Sized, Safe, PlatformReset, BmcWatchdog, MeWatchdog;
  }

  // The timer of ACM and BIOS starts with the PCH's own reset, when it is seen while the timer does not run
  // and the recovery image is valid; ACM and BIOS then count as not booted. Intents that waited for the reset
  // count from then on. If the timer is not turned off, its expiry requests a recovery, and so does a report
  // of failed authentication.
  lemma PlatformResetArmsBios(b: Board, s: State, e: Pins)
    requires Sized(b, s) && Safe(b, s) && s.mode == Running && !s.pch.flags.recoveryFailed
    ensures var r := PlatformResetSeen(s, false);
            && AcmBiosTimer in r.armed && r.booted == s.booted - {Acm, Ibb, Obb} && r.enabled == s.enabled && r.log == s.log
            && r.bmc == s.bmc.(intent := s.bmc.intent.(atReset := false)) && r.pch == s.pch.(intent := s.pch.intent.(atReset := false))
            && Sized(b, r) && Sized(b, Asked(r, Pch))
            && (AcmBiosTimer in s.enabled && s.pch.recoveries < 3 ==>
                  && AcmBiosWatchdog(b, r, true, NoMessage, NoMessage, e) == PlatformReset(b, Asked(r, Pch), e)
                  && AcmBiosWatchdog(b, r, false, NoMessage, AuthFail, e) == PlatformReset(b, Asked(r, Pch), e))
  {
    var r := PlatformResetSeen(s, false);
    SeenIs(s);
    FitsSeen(b, s, r);
    AskedFits(b, r);
    LevelsOf(b, s, Pch);
    if AcmBiosTimer in s.enabled && s.pch.recoveries < 3 {
      BiosExpiry(b, r, true, NoMessage, e);
      BiosExpiry(b, r, false, AuthFail, e);
    }
    hide *;
  }

  // While that timer runs, or without a valid recovery image, the PCH's own reset changes no timer and no progress
  lemma SeenWhileCounting(s: State, counting: bool)
    requires counting || s.pch.flags.recoveryFailed
    ensures var r := PlatformResetSeen(s, counting); r.armed == s.armed && r.booted == s.booted && r.enabled == s.enabled
  {
  }

  lemma SeenIs(s: State)
    requires !s.pch.flags.recoveryFailed
    ensures var r := PlatformResetSeen(s, false);
            && r.armed == s.armed + {AcmBiosTimer} && r.booted == s.booted - {Acm, Ibb, Obb} && r.enabled == s.enabled && r.log == s.log
            && r.bmc == s.bmc.(intent := s.bmc.intent.(atReset := false)) && r.pch == s.pch.(intent := s.pch.intent.(atReset := false))
            && r.page == s.page
  {
  }

  lemma FitsSeen(b: Board, s: State, r: State)
    requires Sized(b, s) && r.bmc.mem == s.bmc.mem && r.pch.mem == s.pch.mem && r.page == s.page
    ensures Sized(b, r)
  {
  }

  // No message of ACM or BIOS that is part of a boot
  lemma BiosExpiry(b: Board, r: State, expired: bool, acm: Checkpoint, e: Pins)
    requires Sized(b, r) && AcmBiosTimer in r.enabled && AcmBiosTimer in r.armed && r.booted !! {Acm, Ibb, Obb} && Of(r, Pch).level & 0x1C != 0
    requires expired || acm.AuthFail?
    ensures Sized(b, Asked(r, Pch)) && AcmBiosWatchdog(b, r, expired, NoMessage, acm, e) == PlatformReset(b, Asked(r, Pch), e)
  {
    AskedFits(b, r);
    assert BiosProgress(r, NoMessage) == r;
    hide Sized, PlatformReset, BiosProgress;
  }

  // ---------------------------------------------------------------- a boot without trouble

  // A report of a component in time, and not of a failed authentication
  predicate InTime(i: Input) {
    match i
    case PollBmcTimer(expired, _) => !expired
    case PollMeTimer(expired, _) => !expired
    case PollAcmBiosTimer(expired, bios, acm) => !expired && !bios.AuthFail? && !acm.AuthFail?
    case _ => false
  }

  predicate BmcDone(i: Input) { i.PollBmcTimer? && i.chk.Complete? }

  predicate MeDone(i: Input) { i.PollMeTimer? && i.ready }

  predicate BiosDone(i: Input) { i.PollAcmBiosTimer? && i.bios.Complete? }

  predicate AcmStarts(i: Input) { i.PollAcmBiosTimer? && i.bios.Start? }

  // Each component is watched until it has booted
  predicate Watched(s: State) {
    && s.mode == Running && s.provisioned && s.enabled == {BmcTimer, MeTimer, AcmBiosTimer}
    && (BmcTimer in s.armed <==> BmcPart !in s.booted) && (MeTimer in s.armed <==> Me !in s.booted)
    && (AcmBiosTimer in s.armed <==> Obb !in s.booted) && (Obb in s.booted ==> Ibb in s.booted)
  }

  predicate Restarted(side: Side) { side.level == 4 && side.recoveries == 0 }

  // What one report changes: the parts that count as booted, and the recovery level of a component with the
  // report that completes its boot
  predicate Reported(s: State, r: State, i: Input) {
    && Watched(r) && SameFlashes(s, r) && r.log == s.log && r.bmc.flags == s.bmc.flags && r.pch.flags == s.pch.flags
    && (BmcPart in r.booted <==> BmcPart in s.booted || BmcDone(i)) && (Me in r.booted <==> Me in s.booted || MeDone(i))
    && (Acm in r.booted <==> Acm in s.booted || (AcmStarts(i) && Ibb !in s.booted))
    && (Ibb in r.booted <==> Ibb in s.booted || BiosDone(i)) && (Obb in r.booted <==> Obb in s.booted || (BiosDone(i) && Ibb in s.booted))
    && (if BmcPart in r.booted - s.booted then Restarted(r.bmc) else r.bmc == s.bmc)
    && (if {Me, Obb} <= r.booted && !({Me, Obb} <= s.booted) then Restarted(r.pch) else r.pch == s.pch)
  }

  lemma ReportIs(b: Board, s: State, i: Input, e: Pins)
    requires Sized(b, s) && Watched(s) && InTime(i)
    ensures Reported(s, Step(b, s, i, e), i)
  {
    hide Sized, TriggerWdt, PlatformReset;
    match i
    case PollBmcTimer(expired, chk) => BmcReport(b, s, chk, e);
    case PollMeTimer(expired, ready) => MeReport(b, s, ready, e);
    case PollAcmBiosTimer(expired, bios, acm) => BiosReport(b, s, bios, acm, e);
    case _ =>
  }

  lemma BmcReport(b: Board, s: State, chk: Checkpoint, e: Pins)
    requires Sized(b, s) && Watched(s)
    ensures Reported(s, BmcWatchdog(b, s, false, chk, e), PollBmcTimer(false, chk))
  {
    hide Sized, TriggerWdt;
  }

  lemma MeReport(b: Board, s: State, ready: bool, e: Pins)
    requires Sized(b, s) && Watched(s)
    ensures Reported(s, MeWatchdog(b, s, false, ready, e), PollMeTimer(false, ready))
  {
    hide Sized, TriggerWdt;
  }

  lemma BiosReport(b: Board, s: State, bios: Checkpoint, acm: Checkpoint, e: Pins)
    requires Sized(b, s) && Watched(s) && !bios.AuthFail? && !acm.AuthFail?
    ensures Reported(s, AcmBiosWatchdog(b, s, false, bios, acm, e), PollAcmBiosTimer(false, bios, acm))
  {
    hide Sized, TriggerWdt;
  }

  // How many stages BIOS reports as complete; whether ACM starts before the first of them
  function StagesDone(inputs: seq<(Input, Pins)>): nat {
    if inputs == [] then 0 else (if BiosDone(inputs[0].0) then 1 else 0) + StagesDone(inputs[1..])
  }

  predicate AcmStartsFirst(inputs: seq<(Input, Pins)>) {
    inputs != [] && (AcmStarts(inputs[0].0) || (!BiosDone(inputs[0].0) && AcmStartsFirst(inputs[1..])))
  }

  predicate SomeBmcDone(inputs: seq<(Input, Pins)>) { exists k | 0 <= k < |inputs| :: BmcDone(inputs[k].0) }

  predicate SomeMeDone(inputs: seq<(Input, Pins)>) { exists k | 0 <= k < |inputs| :: MeDone(inputs[k].0) }

  // Over any reports in time, in whatever order: the BMC and ME count as booted exactly when they say so once,
  // the two stages of BIOS exactly when it reports the first and the second as complete, ACM exactly when it
  // starts before the first. The recovery level of the BMC starts over when it has booted, that of the PCH when
  // both ME and BIOS have; no flash is touched, and a component that has booted is no longer watched.
  lemma {:induction false} ReportsBoot(b: Board, s: State, inputs: seq<(Input, Pins)>)
    requires Sized(b, s) && Watched(s) && forall k | 0 <= k < |inputs| :: InTime(inputs[k].0)
    ensures var r := RunAll(b, s, inputs);
            && Watched(r) && SameFlashes(s, r) && r.log == s.log && r.bmc.flags == s.bmc.flags && r.pch.flags == s.pch.flags
            && (BmcPart in r.booted <==> BmcPart in s.booted || SomeBmcDone(inputs))
            && (Me in r.booted <==> Me in s.booted || SomeMeDone(inputs))
            && (Ibb in r.booted <==> Ibb in s.booted || StagesDone(inputs) >= 1)
            && (Obb in r.booted <==> Obb in s.booted || StagesDone(inputs) >= if Ibb in s.booted then 1 else 2)
            && (Acm in r.booted <==> Acm in s.booted || (Ibb !in s.booted && AcmStartsFirst(inputs)))
            && (if BmcPart in r.booted - s.booted then Restarted(r.bmc) else r.bmc == s.bmc)
            && (if {Me, Obb} <= r.booted && !({Me, Obb} <= s.booted) then Restarted(r.pch) else r.pch == s.pch)
    decreases |inputs|
  {
    hide Sized, Step, Watched, InTime, BmcDone, MeDone, BiosDone, AcmStarts, Restarted, Reported;
    if inputs != [] {
      var next := Step(b, s, inputs[0].0, inputs[0].1);
      ReportIs(b, s, inputs[0].0, inputs[0].1);
      ReportFacts(s, next, inputs[0].0);
      FirstOrLater(inputs);
      WatchedFacts(s);
      WatchedFacts(next);
      ReportsBoot(b, next, inputs[1..]);
    }
  }

  lemma WatchedFacts(s: State)
    requires Watched(s)
    ensures Obb in s.booted ==> Ibb in s.booted
  {
  }

  lemma ReportFacts(s: State, r: State, i: Input)
    requires Reported(s, r, i)
    ensures Watched(r) && SameFlashes(s, r) && r.log == s.log && r.bmc.flags == s.bmc.flags && r.pch.flags == s.pch.flags
    ensures BmcPart in r.booted <==> BmcPart in s.booted || BmcDone(i)
    ensures Me in r.booted <==> Me in s.booted || MeDone(i)
    ensures Acm in r.booted <==> Acm in s.booted || (AcmStarts(i) && Ibb !in s.booted)
    ensures Ibb in r.booted <==> Ibb in s.booted || BiosDone(i)
    ensures Obb in r.booted <==> Obb in s.booted || (BiosDone(i) && Ibb in s.booted)
    ensures if BmcPart in r.booted - s.booted then Restarted(r.bmc) else r.bmc == s.bmc
    ensures if {Me, Obb} <= r.booted && !({Me, Obb} <= s.booted) then Restarted(r.pch) else r.pch == s.pch
    ensures !(AcmStarts(i) && BiosDone(i))
  {
  }

  lemma FirstOrLater(inputs: seq<(Input, Pins)>)
    requires inputs != []
    ensures SomeBmcDone(inputs) <==> BmcDone(inputs[0].0) || SomeBmcDone(inputs[1..])
    ensures SomeMeDone(inputs) <==> MeDone(inputs[0].0) || SomeMeDone(inputs[1..])
  {
    var rest := inputs[1..];
    if k :| 0 <= k < |inputs| && BmcDone(inputs[k].0) {
      assert k == 0 || BmcDone(rest[k - 1].0);
    }
    if k :| 0 <= k < |inputs| && MeDone(inputs[k].0) {
      assert k == 0 || MeDone(rest[k - 1].0);
    }
    assert forall k | 0 <= k < |rest| :: rest[k] == inputs[k + 1];
  }

  // A watched platform on which nothing has booted yet has booted exactly when each of them reports it; then
  // no timer runs and both recovery levels start over
  lemma BootCompletesIff(b: Board, s: State, inputs: seq<(Input, Pins)>)
    requires Sized(b, s) && Watched(s) && s.booted == {} && forall k | 0 <= k < |inputs| :: InTime(inputs[k].0)
    ensures var r := RunAll(b, s, inputs);
            var all := SomeBmcDone(inputs) && SomeMeDone(inputs) && StagesDone(inputs) >= 2 && AcmStartsFirst(inputs);
            && (AllBooted(r) <==> all)
            && (AllBooted(r) ==> r.armed == {} && Restarted(r.bmc) && Restarted(r.pch))
  {
    hide Sized, RunAll, InTime, SomeBmcDone, SomeMeDone, StagesDone, AcmStartsFirst, Restarted;
    ReportsBoot(b, s, inputs);
    var r := RunAll(b, s, inputs);
    if BmcPart in r.booted && Me in r.booted && Acm in r.booted && Ibb in r.booted && Obb in r.booted {
      EveryPart(r.booted);
      AllTimers(r.armed);
    }
  }

  lemma EveryPart(a: set<Part>)
    requires BmcPart in a && Me in a && Acm in a && Ibb in a && Obb in a
    ensures a == {BmcPart, Me, Acm, Ibb, Obb}
  {
    var all := {BmcPart, Me, Acm, Ibb, Obb};
    forall x: Part ensures x in a && x in all {
      assert x == BmcPart || x == Me || x == Acm || x == Ibb || x == Obb;
    }
  }

  // That is where a platform reset leads when it releases both components with valid recovery images and the
  // PCH's own reset is seen after it
  lemma ResetIsWatched(b: Board, s: State, e: Pins)
    requires Sized(b, s) && Sound(b, s) && s.mode == Running && s.provisioned && s.enabled == {BmcTimer, MeTimer, AcmBiosTimer}
    ensures var r := PlatformReset(b, s, e);
            r.mode == Running && !r.bmc.held && !r.pch.held && !r.bmc.flags.recoveryFailed && !r.pch.flags.recoveryFailed ==>
              Watched(PlatformResetSeen(r, false)) && PlatformResetSeen(r, false).booted == {}
  {
    hide *;
    ResetArms(b, s, e);
    ResetReleasesIff(b, s, e);
    var n := ProvisionedReset(b, s, e);
    var r := PlatformReset(b, s, e);
    if r.mode == Running && !r.bmc.held && !r.pch.held && !r.bmc.flags.recoveryFailed && !r.pch.flags.recoveryFailed {
      SettledRuns(s, r, n);
      NowWatched(r);
    }
  }

  lemma SettledRuns(s: State, r: State, n: nat)
    requires ResetSettles(s, r, n) && r.mode == Running
    ensures r.provisioned
  {
  }

  lemma NowWatched(r: State)
    requires r.mode == Running && r.provisioned && {BmcTimer, MeTimer, AcmBiosTimer} <= r.enabled && !r.pch.flags.recoveryFailed
    requires BmcTimer in r.armed && MeTimer in r.armed && r.booted == {}
    ensures Watched(PlatformResetSeen(r, false)) && PlatformResetSeen(r, false).booted == {}
  {
    EveryTimer(r.enabled);
  }

  lemma EveryTimer(a: set<Timer>)
    requires {BmcTimer, MeTimer, AcmBiosTimer} <= a
    ensures a == {BmcTimer, MeTimer, AcmBiosTimer}
  {
    var all := {BmcTimer, MeTimer, AcmBiosTimer};
    forall x: Timer ensures x in a && x in all {
      assert x == BmcTimer || x == MeTimer || x == AcmBiosTimer;
    }
  }

  // So does a power-up of a provisioned platform
  lemma PowerUpIsWatched(b: Board, s: State, i: Input, e: Pins)
    requires Sized(b, s) && Safe(b, s) && SameParts(s, i) && i.provisioned
    ensures var r := Step(b, s, i, e);
            r.mode == Running && !r.bmc.held && !r.pch.held && !r.bmc.flags.recoveryFailed && !r.pch.flags.recoveryFailed ==>
              Watched(PlatformResetSeen(r, false)) && PlatformResetSeen(r, false).booted == {}
  {
    PoweredUpSound(b, s, i);
    PoweredUpTimers(b, s, i);
    ResetIsWatched(b, PoweredUp(b, s, i), e);
    PowerUpStep(b, s, i, e);
    hide *;
  }

  lemma PoweredUpTimers(b: Board, s: State, i: Input)
    requires Sized(b, s) && SameParts(s, i)
    ensures PoweredUp(b, s, i).enabled == {BmcTimer, MeTimer, AcmBiosTimer} && PoweredUp(b, s, i).provisioned == i.provisioned
  {
    hide Sized, Fresh;
  }

  lemma PowerUpStep(b: Board, s: State, i: Input, e: Pins)
    requires Sized(b, s) && SameParts(s, i)
    ensures Sized(b, PoweredUp(b, s, i)) && Step(b, s, i, e) == PlatformReset(b, PoweredUp(b, s, i), e)
  {
    hide Sized, PlatformReset, PoweredUp, SameParts;
  }

  // ACM's report of failed authentication counts until ACM or IBB has booted, and BIOS's from then on: with
  // recoveries left, it resets the platform with a recovery of the PCH requested
  lemma FailedAuthenticationAsks(b: Board, s: State, bios: Checkpoint, acm: Checkpoint, e: Pins)
    requires Sized(b, s) && AcmBiosTimer in s.enabled && AcmBiosTimer in s.armed && s.pch.level & 0x1C != 0
    requires if Acm in s.booted || Ibb in s.booted then bios.AuthFail? else bios.NoMessage? && acm.AuthFail?
    ensures Sized(b, Asked(s, Pch)) && AcmBiosWatchdog(b, s, false, bios, acm, e) == PlatformReset(b, Asked(s, Pch), e)
  {
    AskedFits(b, s);
    assert BiosProgress(s, bios) == s && Of(s, Pch) == s.pch;
    hide Sized, PlatformReset, BiosProgress;
  }
}
