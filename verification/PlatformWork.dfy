/**
 What the work in T-1 keeps, function by function: on one flash, on the CPLD bits of an update intent,
 and on both flashes.
 */
module PlatformWork {
  import opened NorFlash
  import opened Ufm
  import opened Authentication
  import opened PfmValidation
  import opened CapsuleValidation
  import opened FlashValidation
  import opened Platform
  import opened PlatformLog

  // ---------------------------------------------------------------- what T-1 work on one flash keeps

  function Other(dev: Dev): Dev { if dev == Bmc then Pch else Bmc }

  // The recovery level mask after a number of watchdog recoveries
  function LevelMask(n: nat): bv8
    requires n <= 3
  {
    if n == 0 then 4 else if n == 1 then 8 else if n == 2 then 16 else 32
  }

  // The level mask tells how many watchdog recoveries there were, at most three, and a fourth is not requested
  predicate Leveled(side: Side) {
    side.recoveries <= 3 && side.level == LevelMask(side.recoveries) && (side.flags.requireWdt ==> side.recoveries < 3)
  }

  // Unless the platform was decommissioned in between, the provisioned data only had bits cleared
  ghost predicate DataKept(s: State, r: State) {
    && Count(r.log, Decommissioned) >= Count(s.log, Decommissioned)
    && (Count(r.log, Decommissioned) == Count(s.log, Decommissioned) ==> OnlyCleared(s.page, r.page))
  }

  lemma ClearedData(s: State, r: State)
    requires OnlyCleared(s.page, r.page) && Count(r.log, Decommissioned) >= Count(s.log, Decommissioned)
    ensures DataKept(s, r)
  {
    hide OnlyCleared, Count;
  }

  lemma SameData(s: State, r: State)
    requires r.page == s.page && Count(r.log, Decommissioned) >= Count(s.log, Decommissioned)
    ensures DataKept(s, r)
  {
    NothingCleared(s.page);
    hide OnlyCleared, Count;
  }

  lemma DataKeptTwice(s: State, t: State, r: State)
    requires DataKept(s, t) && DataKept(t, r)
    ensures DataKept(s, r)
  {
    hide OnlyCleared, Count;
    if Count(r.log, Decommissioned) == Count(s.log, Decommissioned) {
      ClearedTwice(s.page, t.page, r.page);
    }
  }

  // The mode is as it was, or the firmware went astray
  predicate Stays(s: State, r: State) { r.mode == s.mode || r.mode == Astray }

  // T-1 work on one flash, with this many CPLD capsules examined
  ghost predicate Works(s: State, r: State, dev: Dev, examined: nat) {
    && Adds(s.log, r.log, {dev}) && Of(r, Other(dev)) == Of(s, Other(dev))
    && (Leveled(Of(s, dev)) ==> Leveled(Of(r, dev))) && Of(r, dev).flags.readyCpld == Of(s, dev).flags.readyCpld
    && Of(r, dev).held == Of(s, dev).held && Of(s, dev).recoveries <= Of(r, dev).recoveries
    && (r.mode == Lockdown ==> s.mode == Lockdown) && (r.mode == Running ==> r.provisioned == s.provisioned) && DataKept(s, r)
    && Count(r.log, CpldPromoted) == Count(s.log, CpldPromoted)
    && Count(r.log, CpldExamined) == Count(s.log, CpldExamined) + examined
  }

  lemma WorksOn(s: State, t: State, r: State, dev: Dev, m: nat, n: nat)
    requires Works(s, t, dev, m) && Works(t, r, dev, n) && (r.mode == Running ==> t.mode == Running)
    ensures Works(s, r, dev, m + n)
  {
    AddsMore(s.log, t.log, r.log, {dev}, {dev});
    assert {dev} + {dev} == {dev};
    hide Adds, Leveled, Count, DataKept;
    DataKeptTwice(s, t, r);
  }

  lemma WorksAtOnce(s: State, r: State, dev: Dev, x: Event)
    requires r.log == s.log + [x] && IsWork(x, {dev}) && x != CpldPromoted && Of(r, Other(dev)) == Of(s, Other(dev))
    requires (Leveled(Of(s, dev)) ==> Leveled(Of(r, dev))) && Of(r, dev).flags.readyCpld == Of(s, dev).flags.readyCpld
    requires Of(r, dev).held == Of(s, dev).held && Of(s, dev).recoveries <= Of(r, dev).recoveries
    requires r.mode == Lockdown ==> s.mode == Lockdown
    requires (r.mode == Running ==> r.provisioned == s.provisioned) && (r.page == s.page || DataKept(s, r))
    ensures Works(s, r, dev, if x == CpldExamined then 1 else 0)
  {
    AddsNothing(s.log, {dev});
    AddsOne(s.log, s.log, x, {dev});
    CountOne(s.log, x, CpldExamined);
    CountOne(s.log, x, CpldPromoted);
    CountOne(s.log, x, Decommissioned);
    if r.page == s.page { SameData(s, r); }
    hide Adds, IsWork, Leveled, Count, DataKept;
  }

  lemma WorksSilently(s: State, r: State, dev: Dev)
    requires r.log == s.log && Of(r, Other(dev)) == Of(s, Other(dev))
    requires (Leveled(Of(s, dev)) ==> Leveled(Of(r, dev))) && Of(r, dev).flags.readyCpld == Of(s, dev).flags.readyCpld
    requires Of(r, dev).held == Of(s, dev).held && Of(s, dev).recoveries <= Of(r, dev).recoveries
    requires r.mode == Lockdown ==> s.mode == Lockdown
    requires (r.mode == Running ==> r.provisioned == s.provisioned) && (r.page == s.page || DataKept(s, r))
    ensures Works(s, r, dev, 0)
  {
    AddsNothing(s.log, {dev});
    if r.page == s.page { SameData(s, r); }
    hide Adds, Leveled, Count, DataKept;
  }

  lemma StrayWorks(s: State, dev: Dev)
    ensures Works(s, Stray(s), dev, 0) && Stays(s, Stray(s))
  {
    hide Works;
    WorksSilently(s, Stray(s), dev);
  }

  // A level moves up by one; it stays in range because a recovery is requested only below the last level
  lemma LevelRises(side: Side, mem: Mem)
    requires Leveled(side) && side.flags.requireWdt
    ensures Leveled(Recovered(side, mem))
  {
  }

  lemma RecoveredKeeps(side: Side, mem: Mem)
    ensures Recovered(side, mem).flags.readyCpld == side.flags.readyCpld && Recovered(side, mem).intent == side.intent
    ensures Recovered(side, mem).flags.pending == side.flags.pending && Recovered(side, mem).mem == mem && Recovered(side, mem).held == side.held
    ensures Recovered(side, mem).recoveries == side.recoveries + 1
  {
  }

  // Watchdog recovery, and what it leaves to the steps after it
  lemma WdtRecoveryWorks(b: Board, s: State, dev: Dev)
    requires Sized(b, s)
    ensures var r := WdtRecovery(b, s, dev);
            && Works(s, r, dev, 0) && Stays(s, r) && Of(r, dev).intent == Of(s, dev).intent && (Pending(r) <==> Pending(s))
  {
    hide Sized, Works, Leveled, ValidAt, CanRecoverAtLevel, WdtImage, Recovered;
    var side, r := Of(s, dev), WdtRecovery(b, s, dev);
    StrayWorks(s, dev);
    if side.flags.requireWdt && r != s && r != Stray(s) {
      var mem := WdtImage(b.Map(dev), side.mem, side.level);
      RecoveredKeeps(side, mem);
      if Leveled(side) { LevelRises(side, mem); }
      WorksAtOnce(s, r, dev, Written(dev));
    } else if r == s {
      WorksSilently(s, r, dev);
    }
  }

  // The bits of an intent that is limited to one firmware
  lemma FirmwareBits(i: Intent, dev: Dev)
    requires if dev == Bmc then i.BmcFw() else i.PchFw()
    ensures ForFirmware((if dev == Bmc then i.OnlyBmcFw() else i.OnlyPchFw()).Word())
  {
  }

  lemma ExamineIs(b: Board, s: State, dev: Dev, at: nat, i: Intent)
    requires Sized(b, s) && at + 514 <= |Of(s, dev).mem|
    ensures IsPage(s.page) && at + 256 <= |Of(s, dev).mem|
    ensures Examine(b, s, dev, at, i) == Check(b.d, s.page, Of(s, dev).mem, at, i.Word(), s.pch.svn, s.bmc.svn)
  {
    hide Check;
  }

  // A firmware update never decommissions the platform
  lemma FirmwareIntentNeverDecommissions(b: Board, s: State, dev: Dev, at: nat, i: Intent)
    requires Sized(b, s) && at + 514 <= |Of(s, dev).mem| && ForFirmware(i.Word())
    ensures Examine(b, s, dev, at, i) != Decommissions
  {
    ExamineIs(b, s, dev, at, i);
    hide *;
    var m := Of(s, dev).mem;
    if Examine(b, s, dev, at, i) == Decommissions {
      DecommissionNeedsCpldIntent(b.d, s.page, m, at, i.Word(), s.pch.svn, s.bmc.svn);
    }
  }

  lemma ActiveUpdateWorks(b: Board, s: State, dev: Dev, i: Intent)
    requires Sized(b, s)
    ensures var r := ActiveUpdate(b, s, dev, i);
            Works(s, r, dev, 0) && Stays(s, r) && Of(r, dev).intent == Of(s, dev).intent
  {
    var r := ActiveUpdate(b, s, dev, i);
    StrayWorks(s, dev);
    hide Sized, Works, CanUpdate, UpdatedImage;
    if r != Stray(s) {
      WorksAtOnce(s, r, dev, Written(dev));
    }
  }

  lemma ExaminedData(b: Board, s: State, dev: Dev, v: Verdict)
    requires Sized(b, s) && (v.CancelsKey? ==> v.id <= 127) && v != Decommissions
    ensures DataKept(s, Examined(b, s, dev, v))
  {
    if v.CancelsKey? {
      CancelOnlyClears(s.page, v.pcType, v.id);
    } else {
      NothingCleared(s.page);
    }
    hide OnlyCleared, KeyCancelled, Count;
    ClearedData(s, Examined(b, s, dev, v));
  }

  lemma ErasedWorks(s: State, dev: Dev)
    ensures Works(s, Erased(s), dev, 0) && Erased(s).mode == Reconfiguring && (Pending(Erased(s)) <==> Pending(s))
  {
    hide Works, Leveled;
    CountOne(s.log, Decommissioned, Decommissioned);
    assert DataKept(s, Erased(s)) by { hide Count, OnlyCleared; }
    hide Count, DataKept;
    WorksAtOnce(s, Erased(s), dev, Decommissioned);
  }

  lemma ExaminedWorks(b: Board, s: State, dev: Dev, v: Verdict)
    requires Sized(b, s) && (v.CancelsKey? ==> v.id <= 127) && (v == Decommissions ==> !Pending(s))
    ensures var r := Examined(b, s, dev, v);
            && Works(s, r, dev, 0) && (v != Decommissions ==> r.mode == s.mode) && (v == Decommissions ==> r.mode != Running)
            && Of(r, dev).intent == Of(s, dev).intent && (Pending(r) <==> Pending(s))
  {
    var r := Examined(b, s, dev, v);
    hide Sized, Works, PageAfter, DataKept;
    if v == Decommissions {
      ErasedWorks(s, dev);
      WorksAtOnce(Erased(s), r, dev, Reconfigured(false));
      WorksOn(s, Erased(s), r, dev, 0, 0);
    } else {
      ExaminedData(b, s, dev, v);
      WorksSilently(s, r, dev);
    }
  }

  lemma StagingFits(b: Board, s: State, dev: Dev)
    requires Sized(b, s)
    ensures b.Map(dev).Staging() + 514 <= |Of(s, dev).mem| && LaidOut(b.Map(dev), |Of(s, dev).mem|)
    ensures b.StagedCpld() + 514 <= |s.bmc.mem| && b.StagedPch() + 514 <= |s.bmc.mem| && IsPage(s.page)
  {
  }

  lemma FirmwareUpdateWorks(b: Board, s: State, dev: Dev, i: Intent)
    requires Sized(b, s) && (if dev == Bmc then i.BmcFw() else i.PchFw())
    ensures var r := FirmwareUpdate(b, s, dev, i);
            Works(s, r, dev, 0) && Stays(s, r) && Of(r, dev).intent == Of(s, dev).intent
  {
    StagingFits(b, s, dev);
    var only := if dev == Bmc then i.OnlyBmcFw() else i.OnlyPchFw();
    var at := b.Map(dev).Staging();
    var v := Examine(b, s, dev, at, only);
    assert FirmwareUpdate(b, s, dev, i) == if v == Proceeds then ActiveUpdate(b, s, dev, i) else Examined(b, s, dev, v);
    hide *;
    FirmwareBits(i, dev);
    FirmwareIntentNeverDecommissions(b, s, dev, at, only);
    if v == Proceeds {
      ActiveUpdateWorks(b, s, dev, i);
    } else {
      ExaminedWorks(b, s, dev, v);
    }
  }

  // ---------------------------------------------------------------- CPLD intents in T-1

  // The CPLD bits have to wait for a firmware update
  predicate MustWait(s: State) { Pending(s) || s.pch.intent.PchFw() }

  lemma IntentKeepsLevel(side: Side, i: Intent)
    ensures Leveled(side.(intent := i)) <==> Leveled(side)
  {
  }

  lemma NotingKeepsSize(b: Board, s: State, x: Event)
    requires Sized(b, s)
    ensures Sized(b, Noted(s, x))
  {
  }

  lemma TriggerCpldWorks(s: State, recovery: bool)
    requires !Pending(s)
    ensures var r := TriggerCpld(s, recovery); Works(s, r, Bmc, 0) && r.mode == Reconfiguring && r.bmc.intent == s.bmc.intent
  {
    hide Works;
    WorksAtOnce(s, TriggerCpld(s, recovery), Bmc, Reconfigured(false));
  }

  lemma CpldExaminedWorks(b: Board, s: State, i: Intent)
    requires Sized(b, s) && !MustWait(s)
    ensures var r := ActOnCpldIntent(b, s, i); Works(s, r, Bmc, 1) && r.bmc.intent == s.bmc.intent
  {
    StagingFits(b, s, Bmc);
    NotingKeepsSize(b, s, CpldExamined);
    hide Sized, Works, Examine, Examined, TriggerCpld, Leveled;
    var v, t := Examine(b, s, Bmc, b.StagedCpld(), i.OnlyCpld()), Noted(s, CpldExamined);
    WorksAtOnce(s, t, Bmc, CpldExamined);
    if v == Proceeds {
      TriggerCpldWorks(t, i.cpldRecovery);
    } else {
      ExaminedWorks(b, t, Bmc, v);
    }
    WorksOn(s, t, ActOnCpldIntent(b, s, i), Bmc, 1, 0);
  }

  // CPLD bits are put back when a firmware update has to come first; otherwise the capsule is examined
  lemma CpldIntentWorks(b: Board, s: State, i: Intent)
    requires Sized(b, s)
    ensures var r := ActOnCpldIntent(b, s, i);
            && Works(s, r, Bmc, if MustWait(s) then 0 else 1)
            && r.bmc.intent == (if MustWait(s) then i.OnlyCpld() else s.bmc.intent) && (MustWait(s) ==> r.mode == s.mode)
  {
    if MustWait(s) {
      hide Sized, Works, Examine, Examined, TriggerCpld, Leveled;
      IntentKeepsLevel(s.bmc, i.OnlyCpld());
      WorksSilently(s, ActOnCpldIntent(b, s, i), Bmc);
    } else {
      CpldExaminedWorks(b, s, i);
      hide *;
    }
  }

  lemma ClearingIntent(b: Board, s: State, dev: Dev)
    requires Sized(b, s)
    ensures var t := Put(s, dev, Of(s, dev).(intent := NONE));
            && Sized(b, t) && Works(s, t, dev, 0) && t.mode == s.mode && (Pending(t) <==> Pending(s))
            && Of(t, dev).intent == NONE && Of(t, Other(dev)).intent == Of(s, Other(dev)).intent
  {
    IntentKeepsLevel(Of(s, dev), NONE);
    hide Works, Leveled;
    WorksSilently(s, Put(s, dev, Of(s, dev).(intent := NONE)), dev);
  }

  // ---------------------------------------------------------------- all T-1 work on one flash

  // What the BMC update intent comes to: either the CPLD capsule is examined, or the CPLD bits are put
  // back and all others are gone, unless the firmware went astray
  ghost predicate IntentSettled(s: State, r: State, examined: nat) {
    var i := s.bmc.intent;
    && examined <= (if i.Cpld() then 1 else 0)
    && (r.mode != Astray ==>
          && r.bmc.intent == (if i.Cpld() && examined == 0 then i.OnlyCpld() else NONE)
          && (i.Cpld() && !i.BmcFw() && !MustWait(s) ==> examined == 1))
    && (examined == 0 ==> Stays(s, r))
  }

  lemma ActOnBmcWorks(b: Board, s: State) returns (n: nat)
    requires Sized(b, s) && s.mode == Running
    ensures var r := ActOnBmc(b, s); Works(s, r, Bmc, n) && IntentSettled(s, r, n)
  {
    hide Sized, Works, FirmwareUpdate, ActOnCpldIntent, Leveled;
    var i, t := s.bmc.intent, s.(bmc := s.bmc.(intent := NONE));
    ClearingIntent(b, s, Bmc);
    assert t == Put(s, Bmc, s.bmc.(intent := NONE));
    var f := if i.BmcFw() then FirmwareUpdate(b, t, Bmc, i) else t;
    if i.BmcFw() {
      FirmwareUpdateWorks(b, t, Bmc, i);
      WorksOn(s, t, f, Bmc, 0, 0);
    }
    n := 0;
    if i.Cpld() && f.mode == Running {
      n := if MustWait(f) then 0 else 1;
      CpldIntentWorks(b, f, i);
      WorksOn(s, f, ActOnBmc(b, s), Bmc, 0, n);
    }
  }

  lemma ActOnPchWorks(b: Board, s: State)
    requires Sized(b, s)
    ensures var r := ActOnPch(b, s); Works(s, r, Pch, 0) && Stays(s, r) && Of(r, Pch).intent == NONE
  {
    hide Sized, Works, FirmwareUpdate, Leveled;
    var i, t := s.pch.intent, s.(pch := s.pch.(intent := NONE));
    ClearingIntent(b, s, Pch);
    assert t == Put(s, Pch, s.pch.(intent := NONE));
    if i.PchFw() {
      FirmwareUpdateWorks(b, t, Pch, i);
      WorksOn(s, t, ActOnPch(b, s), Pch, 0, 0);
    }
  }

  // The component either failed authentication altogether or its flash contents are vouched for
  ghost predicate Ready(b: Board, s: State, dev: Dev) {
    !Of(s, dev).flags.allFailed ==> Vouched(b, s.log, dev, Of(s, dev).mem)
  }

  lemma StoredWorks(s: State, dev: Dev, o: Outcome, svn: nat)
    requires OnlyCleared(s.page, o.page)
    ensures var t := Stored(s, dev, o, svn);
            && Works(s, t, dev, 0) && t.log == s.log + [Written(dev)] && t.mode == s.mode && t.provisioned == s.provisioned
            && Of(t, dev).mem == o.mem && Of(t, dev).intent == Of(s, dev).intent && Of(t, dev).flags.allFailed == o.allFailed
  {
    hide Works, OnlyCleared;
    CountOne(s.log, Written(dev), Decommissioned);
    ClearedData(s, Stored(s, dev, o, svn));
    hide Count, DataKept;
    WorksAtOnce(s, Stored(s, dev, o, svn), dev, Written(dev));
  }

  // An authentication only raises a minimum SVN
  lemma AuthenticateOnlyClears(b: Board, u: Mem, m: Mem, cfg: FlashMap, force: bool)
    requires IsPage(u) && LaidOut(cfg, |m|)
    ensures OnlyCleared(u, Authenticate(b.d, u, m, cfg, force).page)
  {
    AuthenticateCases(b.d, u, m, cfg, force);
    hide *;
    if !CapsuleValid(b.d, u, m, cfg.Recovery()) && Promotable(b.d, u, m, cfg, !ActiveValid(b.d, u, m, cfg.Active())) {
      SvnWriteOnlyClears(u, cfg.policy, PfmSvn(Promoted(m, cfg), cfg.Staging()));
    } else {
      NothingCleared(u);
    }
  }

  lemma NotedWorks(s: State, dev: Dev, x: Event)
    requires IsWork(x, {dev}) && x != CpldExamined && x != CpldPromoted && x != Decommissioned
    ensures Works(s, Noted(s, x), dev, 0) && Of(Noted(s, x), dev) == Of(s, dev) && Noted(s, x).mode == s.mode
    ensures Noted(s, x).log == s.log + [x]
  {
    hide Works;
    WorksAtOnce(s, Noted(s, x), dev, x);
  }

  lemma AuthenticatedIs(b: Board, s: State, dev: Dev, force: bool) returns (o: Outcome, svn: nat)
    requires Sized(b, s) && Authenticated(b, s, dev, force) != Stray(s)
    ensures var m, cfg := Of(s, dev).mem, b.Map(dev);
            && IsPage(s.page) && LaidOut(cfg, |m|) && o == Authenticate(b.d, s.page, m, cfg, force)
            && var t := Stored(s, dev, o, svn);
            Authenticated(b, s, dev, force) == if o.active then Noted(t, Verified(dev, s.page, m, force)) else t
  {
    hide Authenticate, PfmSvn, Stored, Noted, Workable;
    o := Authenticate(b.d, s.page, Of(s, dev).mem, b.Map(dev), force);
    svn := PfmSvn(o.mem, b.Map(dev).Recovery());
  }

  lemma AuthenticatedWorks(b: Board, s: State, dev: Dev, force: bool)
    requires Sized(b, s)
    ensures var r := Authenticated(b, s, dev, force);
            Works(s, r, dev, 0) && Stays(s, r) && Of(r, dev).intent == Of(s, dev).intent
  {
    if Authenticated(b, s, dev, force) == Stray(s) {
      StrayWorks(s, dev);
      StrayKeeps(s, dev);
      hide *;
    } else {
      StoredAndNoted(b, s, dev, force);
      hide *;
    }
  }

  lemma StrayKeeps(s: State, dev: Dev)
    ensures Of(Stray(s), dev) == Of(s, dev)
  {
  }

  lemma StoredAndNoted(b: Board, s: State, dev: Dev, force: bool)
    requires Sized(b, s) && Authenticated(b, s, dev, force) != Stray(s)
    ensures var r := Authenticated(b, s, dev, force);
            Works(s, r, dev, 0) && Stays(s, r) && Of(r, dev).intent == Of(s, dev).intent
  {
    SameStays(s, Authenticated(b, s, dev, force));
    var o, svn := AuthenticatedIs(b, s, dev, force);
    VerifiedIsWork(dev, s.page, Of(s, dev).mem, force);
    hide *;
    var t := Stored(s, dev, o, svn);
    AuthenticateOnlyClears(b, s.page, Of(s, dev).mem, b.Map(dev), force);
    StoredWorks(s, dev, o, svn);
    if o.active {
      var x := Verified(dev, s.page, Of(s, dev).mem, force);
      NotedWorks(t, dev, x);
      WorksOn(s, t, Noted(t, x), dev, 0, 0);
    }
  }

  lemma SameStays(s: State, r: State)
    ensures r.mode == s.mode ==> Stays(s, r)
  {
  }

  lemma AuthenticatedReady(b: Board, s: State, dev: Dev, force: bool)
    requires Sized(b, s) && Inside(s.log, dev) && Authenticated(b, s, dev, force) != Stray(s)
    ensures Ready(b, Authenticated(b, s, dev, force), dev)
  {
    var o, svn := AuthenticatedIs(b, s, dev, force);
    VerifiedIsWork(dev, s.page, Of(s, dev).mem, force);
    hide *;
    var t := Stored(s, dev, o, svn);
    AuthenticatedOrHeld(b.d, s.page, Of(s, dev).mem, b.Map(dev), force);
    AuthenticateOnlyClears(b, s.page, Of(s, dev).mem, b.Map(dev), force);
    StoredWorks(s, dev, o, svn);
    if o.active {
      var x := Verified(dev, s.page, Of(s, dev).mem, force);
      NotedWorks(t, dev, x);
      OneWork(s.log, t.log, dev, Written(dev));
      NowVouched(b, t.log, dev, s.page, Of(s, dev).mem, force);
      IsReady(b, Noted(t, x), dev);
    } else {
      HeldIsReady(b, t, dev);
    }
  }

  lemma VerifiedIsWork(dev: Dev, page: Mem, before: Mem, force: bool)
    ensures IsWork(Verified(dev, page, before, force), {dev}) && IsWork(Written(dev), {dev})
  {
  }

  lemma IsReady(b: Board, s: State, dev: Dev)
    requires Vouched(b, s.log, dev, Of(s, dev).mem)
    ensures Ready(b, s, dev)
  {
  }

  lemma HeldIsReady(b: Board, s: State, dev: Dev)
    requires Of(s, dev).flags.allFailed
    ensures Ready(b, s, dev)
  {
  }

  lemma OneWork(a: seq<Event>, c: seq<Event>, dev: Dev, x: Event)
    requires Inside(a, dev) && c == a + [x] && IsWork(x, {dev})
    ensures Inside(c, dev)
  {
    AddsNothing(a, {dev});
    AddsOne(a, a, x, {dev});
    hide *;
    WorkKeepsInside(a, c, dev, {dev});
  }

  lemma QuietedWorks(b: Board, s: State, dev: Dev)
    requires Sized(b, s)
    ensures var t := Quieted(s, dev);
            && Sized(b, t) && Works(s, t, dev, 0) && t.mode == s.mode && Of(t, dev) == Of(s, dev) && (Pending(t) <==> Pending(s))
  {
    hide Works;
    WorksSilently(s, Quieted(s, dev), dev);
  }

  // The state on which an update intent is acted upon
  function BeforeIntents(b: Board, s: State, dev: Dev): (t: State)
    requires Sized(b, s)
    ensures Sized(b, t)
  {
    WdtRecovery(b, Quieted(s, dev), dev)
  }

  lemma BeforeIntentsWorks(b: Board, s: State, dev: Dev)
    requires Sized(b, s)
    ensures var t := BeforeIntents(b, s, dev);
            && Works(s, t, dev, 0) && Stays(s, t) && Of(t, dev).intent == Of(s, dev).intent && (Pending(t) <==> Pending(s))
            && Of(t, Other(dev)) == Of(s, Other(dev))
  {
    QuietedWorks(b, s, dev);
    hide Sized, WdtRecovery, Quieted, Pending;
    var q := Quieted(s, dev);
    WdtRecoveryWorks(b, q, dev);
    WorksOn(s, q, BeforeIntents(b, s, dev), dev, 0, 0);
    hide Adds, Leveled, Count;
  }

  lemma WorksInside(s: State, r: State, dev: Dev, n: nat)
    requires Works(s, r, dev, n) && Inside(s.log, dev)
    ensures Inside(r.log, dev)
  {
    hide Adds, Leveled, Count, Inside;
    WorkKeepsInside(s.log, r.log, dev, {dev});
  }

  // The state in which a flash is authenticated
  function BeforeAuthentication(b: Board, s: State, dev: Dev): (a: State)
    requires Sized(b, s)
    ensures Sized(b, a)
  {
    var t := BeforeIntents(b, s, dev);
    if t.mode == Running then ActOn(b, t, dev) else t
  }

  lemma OperateOnIs(b: Board, s: State, dev: Dev, force: bool)
    requires Sized(b, s)
    ensures var a := BeforeAuthentication(b, s, dev);
            OperateOn(b, s, dev, force) == if a.mode == Running then Authenticated(b, a, dev, force) else a
  {
    hide ActOn, WdtRecovery, Quieted, Sized, Authenticated;
  }

  lemma BeforeBmc(b: Board, s: State)
    requires Sized(b, s)
    ensures var t := BeforeIntents(b, s, Bmc);
            BeforeAuthentication(b, s, Bmc) == if t.mode == Running then ActOnBmc(b, t) else t
  {
    hide ActOnBmc, BeforeIntents, Sized;
  }

  lemma BeforePch(b: Board, s: State)
    requires Sized(b, s)
    ensures var t := BeforeIntents(b, s, Pch);
            BeforeAuthentication(b, s, Pch) == if t.mode == Running then ActOnPch(b, t) else t
  {
    hide ActOnPch, BeforeIntents, Sized;
  }

  lemma BeforeBmcWorks(b: Board, s: State) returns (n: nat)
    requires Sized(b, s) && s.mode == Running
    ensures var a := BeforeAuthentication(b, s, Bmc);
            Works(s, a, Bmc, n) && IntentSettled(s, a, n)
  {
    BeforeBmc(b, s);
    BeforeIntentsWorks(b, s, Bmc);
    hide *;
    n := 0;
    var t := BeforeIntents(b, s, Bmc);
    if t.mode == Running {
      n := ActOnBmcWorks(b, t);
      WorksOn(s, t, ActOnBmc(b, t), Bmc, 0, n);
      SettledLater(s, t, ActOnBmc(b, t), n);
    } else {
      StraySettles(s, t);
    }
  }

  lemma StraySettles(s: State, t: State)
    requires s.mode == Running && t.mode != Running && Stays(s, t)
    ensures IntentSettled(s, t, 0)
  {
  }

  lemma BeforePchWorks(b: Board, s: State)
    requires Sized(b, s) && s.mode == Running
    ensures var a := BeforeAuthentication(b, s, Pch);
            Works(s, a, Pch, 0) && Stays(s, a) && (a.mode == Running ==> Of(a, Pch).intent == NONE)
  {
    BeforePch(b, s);
    BeforeIntentsWorks(b, s, Pch);
    hide *;
    var t := BeforeIntents(b, s, Pch);
    if t.mode == Running {
      ActOnPchWorks(b, t);
      WorksOn(s, t, ActOnPch(b, t), Pch, 0, 0);
      StaysTwice(s, t, ActOnPch(b, t));
    }
  }

  lemma StaysTwice(s: State, t: State, r: State)
    requires Stays(s, t) && Stays(t, r)
    ensures Stays(s, r)
  {
  }

  // From there to the end of the work on that flash
  lemma ThenAuthenticated(b: Board, s: State, a: State, dev: Dev, force: bool, n: nat) returns (r: State)
    requires Sized(b, a) && Works(s, a, dev, n) && a.mode == Running
    ensures r == Authenticated(b, a, dev, force)
    ensures Works(s, r, dev, n) && Stays(a, r) && Of(r, dev).intent == Of(a, dev).intent
    ensures r.mode == Running && Inside(s.log, dev) ==> Ready(b, r, dev)
  {
    StrayStops(a);
    hide *;
    r := Authenticated(b, a, dev, force);
    AuthenticatedWorks(b, a, dev, force);
    WorksOn(s, a, r, dev, n, 0);
    if r.mode == Running && Inside(s.log, dev) {
      WorksInside(s, a, dev, n);
      AuthenticatedReady(b, a, dev, force);
    }
  }

  lemma StrayStops(s: State)
    ensures Stray(s).mode != Running
  {
  }

  // The T-1 work on the BMC flash
  lemma OperateOnBmcWorks(b: Board, s: State, force: bool) returns (n: nat)
    requires Sized(b, s) && s.mode == Running
    ensures var r := OperateOn(b, s, Bmc, force);
            && Works(s, r, Bmc, n) && IntentSettled(s, r, n)
            && (r.mode == Running && Inside(s.log, Bmc) ==> Ready(b, r, Bmc))
  {
    OperateOnIs(b, s, Bmc, force);
    hide *;
    var a := BeforeAuthentication(b, s, Bmc);
    n := BeforeBmcWorks(b, s);
    if a.mode == Running {
      var r := ThenAuthenticated(b, s, a, Bmc, force, n);
      SettledStays(s, a, r, n);
    }
  }

  lemma SettledLater(s: State, t: State, a: State, n: nat)
    requires IntentSettled(t, a, n) && Of(t, Bmc).intent == Of(s, Bmc).intent && t.mode == s.mode
    requires (Pending(t) <==> Pending(s)) && Of(t, Other(Bmc)) == Of(s, Other(Bmc))
    ensures IntentSettled(s, a, n)
  {
  }

  lemma SettledStays(s: State, a: State, r: State, n: nat)
    requires IntentSettled(s, a, n) && Of(r, Bmc).intent == Of(a, Bmc).intent && Stays(a, r)
    ensures IntentSettled(s, r, n)
  {
  }

  // The T-1 work on the PCH flash
  lemma OperateOnPchWorks(b: Board, s: State, force: bool)
    requires Sized(b, s) && s.mode == Running
    ensures var r := OperateOn(b, s, Pch, force);
            && Works(s, r, Pch, 0) && Stays(s, r)
            && (r.mode == Running ==> Of(r, Pch).intent == NONE && (Inside(s.log, Pch) ==> Ready(b, r, Pch)))
  {
    OperateOnIs(b, s, Pch, force);
    hide *;
    BeforePchWorks(b, s);
    var a := BeforeAuthentication(b, s, Pch);
    if a.mode == Running {
      var r := ThenAuthenticated(b, s, a, Pch, force, 0);
      StaysTwice(s, a, r);
      StraysOn(a, r);
    }
  }

  lemma StraysOn(a: State, r: State)
    requires Stays(a, r)
    ensures r.mode == Running ==> a.mode == Running
  {
  }

  // ---------------------------------------------------------------- T-1 on both flashes

  // T-1 work on both flashes, with this many CPLD capsules examined and promoted
  ghost predicate WorksOnBoth(s: State, r: State, examined: nat, promoted: nat) {
    && Adds(s.log, r.log, {Bmc, Pch})
    && (Leveled(s.bmc) ==> Leveled(r.bmc)) && (Leveled(s.pch) ==> Leveled(r.pch))
    && s.bmc.recoveries <= r.bmc.recoveries && s.pch.recoveries <= r.pch.recoveries
    && r.bmc.held == s.bmc.held && r.pch.held == s.pch.held && r.pch.flags.readyCpld == s.pch.flags.readyCpld
    && (r.mode == Running ==> r.provisioned == s.provisioned) && DataKept(s, r)
    && Count(r.log, CpldPromoted) == Count(s.log, CpldPromoted) + promoted
    && Count(r.log, CpldExamined) == Count(s.log, CpldExamined) + examined
  }

  lemma BothThenBoth(s: State, t: State, r: State, m: nat, n: nat, p: nat, q: nat)
    requires WorksOnBoth(s, t, m, p) && WorksOnBoth(t, r, n, q) && (r.mode == Running ==> t.mode == Running)
    ensures WorksOnBoth(s, r, m + n, p + q)
  {
    AddsMore(s.log, t.log, r.log, {Bmc, Pch}, {Bmc, Pch});
    assert {Bmc, Pch} + {Bmc, Pch} == {Bmc, Pch};
    hide Adds, Leveled, Count, DataKept;
    DataKeptTwice(s, t, r);
  }

  lemma OneIsBoth(s: State, r: State, dev: Dev, n: nat)
    requires Works(s, r, dev, n)
    ensures WorksOnBoth(s, r, n, 0)
  {
    AddsNothing(r.log, {Bmc, Pch});
    AddsMore(s.log, r.log, r.log, {dev}, {Bmc, Pch});
    assert {dev} + {Bmc, Pch} == {Bmc, Pch};
    hide Adds, Leveled, Count, DataKept;
  }

  lemma BothInside(s: State, r: State, dev: Dev, m: nat, n: nat)
    requires WorksOnBoth(s, r, m, n) && Inside(s.log, dev)
    ensures Inside(r.log, dev)
  {
    hide Adds, Leveled, Count, Inside;
    WorkKeepsInside(s.log, r.log, dev, {Bmc, Pch});
  }

  // Before both flashes are worked on: the mode and the BMC intent stay as they are
  ghost predicate Prepares(s: State, r: State, promoted: nat) {
    && WorksOnBoth(s, r, 0, promoted) && Stays(s, r) && r.bmc.intent == s.bmc.intent
    && (!s.bmc.intent.PchFw() ==> (r.pch.intent.PchFw() <==> s.pch.intent.PchFw()))
  }

  lemma ThenPrepares(s: State, t: State, r: State, p: nat, q: nat)
    requires Prepares(s, t, p) && Prepares(t, r, q) && (r.mode == Running ==> t.mode == Running)
    ensures Prepares(s, r, p + q)
  {
    hide WorksOnBoth;
    BothThenBoth(s, t, r, 0, 0, p, q);
  }

  lemma PreparesSilently(s: State, r: State, dev: Dev)
    requires Works(s, r, dev, 0) && Stays(s, r) && r.bmc.intent == s.bmc.intent
    requires !s.bmc.intent.PchFw() ==> r.pch.intent == s.pch.intent
    ensures Prepares(s, r, 0)
  {
    hide Works, WorksOnBoth;
    OneIsBoth(s, r, dev, 0);
  }

  lemma HandedOverKeeps(i: Intent, side: Side, mem: Mem)
    ensures var next := HandedOver(i, side, mem);
            (Leveled(next) <==> Leveled(side)) && next.flags.readyCpld == side.flags.readyCpld
  {
  }

  lemma PrepIs(b: Board, s: State) returns (v: Verdict, mem: Mem)
    requires Sized(b, s) && s.bmc.intent.PchFw()
    ensures b.StagedPch() + 514 <= |s.bmc.mem| && v == Examine(b, s, Bmc, b.StagedPch(), s.bmc.intent.OnlyPchFw())
    ensures PrepForOob(b, s) == if v != Proceeds then Examined(b, s, Bmc, v)
                                else if mem == [] then Stray(s)
                                else Noted(s.(pch := HandedOver(s.bmc.intent, s.pch, mem)), Written(Pch))
    ensures v == Proceeds && mem != [] ==> HoldsPayload(s.bmc.mem, b.StagedPch()) && CanHandOver(s.pch.mem, s.bmc.mem, b.StagedPch(), b.pch.staging)
                                           && mem == CopiedTo(s.pch.mem, s.bmc.mem, b.StagedPch(), b.pch.staging)
  {
    StagingFits(b, s, Bmc);
    assert |s.pch.mem| > 0;
    hide Sized, Examine, Examined, CopiedTo;
    v := Examine(b, s, Bmc, b.StagedPch(), s.bmc.intent.OnlyPchFw());
    mem := if CanHandOver(s.pch.mem, s.bmc.mem, b.StagedPch(), b.pch.staging) then
             CopiedTo(s.pch.mem, s.bmc.mem, b.StagedPch(), b.pch.staging) else [];
  }

  lemma PrepForOobWorks(b: Board, s: State)
    requires Sized(b, s)
    ensures var r := PrepForOob(b, s); Prepares(s, r, 0) && r.bmc.flags.readyCpld == s.bmc.flags.readyCpld
  {
    if s.bmc.intent.PchFw() {
      var v, mem := PrepIs(b, s);
      FirmwareBits(s.bmc.intent, Pch);
      FirmwareIntentNeverDecommissions(b, s, Bmc, b.StagedPch(), s.bmc.intent.OnlyPchFw());
      hide Sized, PrepForOob, Examine, Examined, Prepares, Works, HandedOver, Leveled, ForFirmware;
      if v != Proceeds {
        ExaminedWorks(b, s, Bmc, v);
        ExaminedReady(b, s, v);
        PreparesSilently(s, PrepForOob(b, s), Bmc);
      } else if mem == [] {
        StrayWorks(s, Bmc);
        PreparesSilently(s, PrepForOob(b, s), Bmc);
      } else {
        HandedOverKeeps(s.bmc.intent, s.pch, mem);
        WorksAtOnce(s, PrepForOob(b, s), Pch, Written(Pch));
        PreparesSilently(s, PrepForOob(b, s), Pch);
      }
    } else {
      hide Sized, Prepares, Works;
      WorksSilently(s, s, Bmc);
      PreparesSilently(s, s, Bmc);
    }
  }

  lemma ExaminedReady(b: Board, s: State, v: Verdict)
    requires Sized(b, s) && (v.CancelsKey? ==> v.id <= 127)
    ensures Examined(b, s, Bmc, v).bmc.flags == s.bmc.flags && Examined(b, s, Bmc, v).pch == s.pch
  {
  }

  lemma PendingUpdateData(b: Board, s: State, dev: Dev)
    requires Sized(b, s)
    ensures OnlyCleared(s.page, PendingUpdate(b, s, dev).page)
  {
    NothingCleared(s.page);
    var r := PendingUpdate(b, s, dev);
    if r.page != s.page {
      SvnWriteOnlyClears(s.page, b.Map(dev).policy, PfmSvn(Of(r, dev).mem, b.Map(dev).Staging()));
    }
    hide Sized, Promotable, Promoted, SvnWritten, PfmSvn, OnlyCleared, CopyFits, LaidOut;
  }

  lemma PendingUpdateWorks(b: Board, s: State, dev: Dev)
    requires Sized(b, s)
    ensures var r := PendingUpdate(b, s, dev);
            && Works(s, r, dev, 0) && Stays(s, r) && Of(r, dev).intent == Of(s, dev).intent
            && (r.mode == Running ==> !Of(r, dev).flags.pending)
  {
    var side, r := Of(s, dev), PendingUpdate(b, s, dev);
    PendingUpdateData(b, s, dev);
    PendingCases(b, s, dev);
    StrayWorks(s, dev);
    StrayKeeps(s, dev);
    hide *;
    if side.flags.pending && r != Stray(s) {
      if r.log == s.log {
        SilentUpdate(s, dev);
      } else {
        UpdateLogged(s, dev, Of(r, dev).mem, r.page);
      }
    } else if r == s {
      WorksOfNothing(s, dev);
    }
  }

  lemma WorksOfNothing(s: State, dev: Dev)
    ensures Works(s, s, dev, 0) && Stays(s, s)
  {
    hide Works;
    WorksSilently(s, s, dev);
  }

  // A promotion that is turned down, one that cannot be carried out, and one that is
  lemma PendingCases(b: Board, s: State, dev: Dev)
    requires Sized(b, s)
    ensures var side, r := Of(s, dev), PendingUpdate(b, s, dev);
            if !side.flags.pending then r == s
            else r == Stray(s) || r == TurnedDown(s, dev) || r == CarriedOut(s, dev, Of(r, dev).mem, r.page)
    ensures TurnedDown(s, dev).log == s.log && Stray(s).mode != Running
  {
    hide Sized, Promotable, Promoted, SvnWritten, PfmSvn, LaidOut, CopyFits;
  }

  function TurnedDown(s: State, dev: Dev): State {
    var side := Of(s, dev);
    Put(s, dev, side.(flags := side.flags.(pending := false), attempts := side.attempts + 1))
  }

  function CarriedOut(s: State, dev: Dev, mem: Mem, page: Mem): State {
    var side := Of(s, dev);
    Noted(Put(s, dev, side.(flags := side.flags.(pending := false), mem := mem)).(page := page), Written(dev))
  }

  lemma SilentUpdate(s: State, dev: Dev)
    ensures var r := TurnedDown(s, dev);
            Works(s, r, dev, 0) && Stays(s, r) && Of(r, dev).intent == Of(s, dev).intent && !Of(r, dev).flags.pending
  {
    PendingKeepsLevel(Of(s, dev), Of(s, dev).mem);
    hide Works, Leveled;
    WorksSilently(s, TurnedDown(s, dev), dev);
  }

  lemma UpdateLogged(s: State, dev: Dev, mem: Mem, page: Mem)
    requires OnlyCleared(s.page, page)
    ensures var r := CarriedOut(s, dev, mem, page);
            Works(s, r, dev, 0) && Stays(s, r) && Of(r, dev).intent == Of(s, dev).intent && !Of(r, dev).flags.pending
  {
    var r := CarriedOut(s, dev, mem, page);
    PendingKeepsLevel(Of(s, dev), mem);
    CountOne(s.log, Written(dev), Decommissioned);
    hide Works, Leveled, OnlyCleared, Count;
    ClearedData(s, r);
    hide DataKept;
    WorksAtOnce(s, r, dev, Written(dev));
  }

  lemma PendingKeepsLevel(side: Side, mem: Mem)
    ensures Leveled(side.(flags := side.flags.(pending := false), mem := mem)) <==> Leveled(side)
    ensures Leveled(side.(flags := side.flags.(pending := false), attempts := side.attempts + 1)) <==> Leveled(side)
  {
  }

  lemma PromoteCpldWorks(b: Board, s: State)
    requires Sized(b, s)
    ensures var r := PromoteCpld(b, s);
            && Prepares(s, r, 1) && !r.bmc.flags.readyCpld && r.bmc.flags.pending == s.bmc.flags.pending && r.pch == s.pch
  {
    StagingFits(b, s, Bmc);
    hide Sized, SvnWritten, CpldSvn, OnlyCleared;
    var r := PromoteCpld(b, s);
    SvnWriteOnlyClears(s.page, CpldPolicy, CpldSvn(s.bmc.mem, b.StagedCpld()));
    var t := s.log + [Written(Bmc)];
    assert r.log == t + [CpldPromoted];
    AddsNothing(s.log, {Bmc, Pch});
    AddsOne(s.log, s.log, Written(Bmc), {Bmc, Pch});
    AddsOne(s.log, t, CpldPromoted, {Bmc, Pch});
    CountOne(s.log, Written(Bmc), CpldPromoted);
    CountOne(s.log, Written(Bmc), CpldExamined);
    CountOne(t, CpldPromoted, CpldPromoted);
    CountOne(t, CpldPromoted, CpldExamined);
    CountOne(s.log, Written(Bmc), Decommissioned);
    CountOne(t, CpldPromoted, Decommissioned);
    hide Adds, Count;
    ClearedData(s, r);
    hide DataKept;
  }

  lemma ProcessPendingWorks(b: Board, s: State, dev: Dev) returns (p: nat)
    requires Sized(b, s) && s.mode == Running && (dev == Pch ==> !s.pch.flags.readyCpld)
    ensures var r := ProcessPending(b, s, dev);
            && Prepares(s, r, p) && p <= (if dev == Bmc && s.bmc.flags.readyCpld then 1 else 0)
            && Of(r, Other(dev)) == Of(s, Other(dev))
            && (r.mode == Running ==> !Of(r, dev).flags.pending && (dev == Bmc ==> !r.bmc.flags.readyCpld))
  {
    PendingUpdateWorks(b, s, dev);
    hide Sized, PendingUpdate, PromoteCpld, Prepares, Adds, Leveled, Count, DataKept;
    p := 0;
    var t := PendingUpdate(b, s, dev);
    PreparesSilently(s, t, dev);
    if t.mode == Running && Of(t, dev).flags.readyCpld {
      p := 1;
      PromoteCpldWorks(b, t);
      ThenPrepares(s, t, ProcessPending(b, s, dev), 0, 1);
    }
  }

  // Both flashes are worked on with no firmware recovery update pending
  lemma ProcessBothWorks(b: Board, s: State) returns (p: nat)
    requires Sized(b, s) && s.mode == Running && !s.pch.flags.readyCpld
    ensures var r := ProcessBoth(b, s);
            && Prepares(s, r, p) && p <= (if s.bmc.flags.readyCpld then 1 else 0)
            && (r.mode == Running ==> !Pending(r) && !r.bmc.flags.readyCpld)
  {
    hide Sized, ProcessPending, Prepares;
    var t := ProcessPending(b, s, Bmc);
    p := ProcessPendingWorks(b, s, Bmc);
    if t.mode == Running {
      var q := ProcessPendingWorks(b, t, Pch);
      ThenPrepares(s, t, ProcessBoth(b, s), p, q);
      StaysOut(t, ProcessBoth(b, s), q);
    }
  }

  lemma StaysOut(s: State, r: State, p: nat)
    requires Prepares(s, r, p)
    ensures Stays(s, r)
  {
    hide WorksOnBoth, Stays;
  }

  lemma PreparedWorks(b: Board, s: State) returns (p: nat)
    requires Sized(b, s) && s.mode == Running && !s.pch.flags.readyCpld
    ensures var r := Prepared(b, s);
            && Prepares(s, r, p) && p <= (if s.bmc.flags.readyCpld then 1 else 0)
            && (r.mode == Running ==> !Pending(r) && !r.bmc.flags.readyCpld)
  {
    PrepForOobWorks(b, s);
    hide Sized, PrepForOob, ProcessBoth, WorksOnBoth, Pending;
    p := 0;
    var t := PrepForOob(b, s);
    KeepsReady(s, t, 0, 0);
    if t.mode == Running {
      p := ProcessBothWorks(b, t);
      hide Prepares;
      ThenPrepares(s, t, Prepared(b, s), 0, p);
    }
  }

  lemma KeepsReady(s: State, t: State, m: nat, n: nat)
    requires WorksOnBoth(s, t, m, n)
    ensures t.pch.flags.readyCpld == s.pch.flags.readyCpld && (t.mode == Running ==> t.provisioned == s.provisioned)
  {
  }

  // What T-1 on both flashes leaves: released components will be vouched for
  ghost predicate BothReady(b: Board, r: State) {
    r.mode == Running ==> Ready(b, r, Bmc) && Ready(b, r, Pch) && !r.bmc.flags.readyCpld && r.pch.intent == NONE
  }

  lemma OperateOnBothIs(b: Board, s: State, e: Pins)
    requires Sized(b, s)
    ensures var t := OperateOn(b, s, Bmc, e.forceBmc);
            OperateOnBoth(b, s, e) == if t.mode == Running then OperateOn(b, t, Pch, e.forcePch) else t
  {
    hide OperateOn, Sized;
  }

  lemma OperateOnBothWorks(b: Board, s: State, e: Pins) returns (n: nat)
    requires Sized(b, s) && s.mode == Running && !s.bmc.flags.readyCpld && Inside(s.log, Bmc) && Inside(s.log, Pch)
    ensures var r := OperateOnBoth(b, s, e); WorksOnBoth(s, r, n, 0) && IntentSettled(s, r, n) && BothReady(b, r) && r.mode != Lockdown
  {
    OperateOnBothIs(b, s, e);
    hide *;
    n := OperateOnBmcWorks(b, s, e.forceBmc);
    var t := OperateOn(b, s, Bmc, e.forceBmc);
    if t.mode == Running {
      PchAfterBmc(b, s, t, e.forcePch, n);
    } else {
      OneIsBoth(s, t, Bmc, n);
      WorksFacts(s, t, Bmc, n);
      StoppedIsReady(b, t);
    }
  }

  lemma PchAfterBmc(b: Board, s: State, t: State, force: bool, n: nat)
    requires Sized(b, t) && t.mode == Running && !s.bmc.flags.readyCpld && Inside(s.log, Pch)
    requires Works(s, t, Bmc, n) && IntentSettled(s, t, n) && Ready(b, t, Bmc)
    ensures var r := OperateOn(b, t, Pch, force); WorksOnBoth(s, r, n, 0) && IntentSettled(s, r, n) && BothReady(b, r) && r.mode != Lockdown
  {
    hide *;
    OneIsBoth(s, t, Bmc, n);
    BothInside(s, t, Pch, n, 0);
    var r := OperateOn(b, t, Pch, force);
    OperateOnPchWorks(b, t, force);
    OneIsBoth(t, r, Pch, 0);
    BothThenBoth(s, t, r, n, 0, 0, 0);
    if r.mode == Running {
      ThenBothReady(b, s, t, r, n);
    } else {
      StoppedIsReady(b, r);
    }
    OtherIntent(t, r);
    WorksFacts(t, r, Pch, 0);
    SettledStays(s, t, r, n);
  }

  lemma OtherIntent(t: State, r: State)
    requires Works(t, r, Pch, 0)
    ensures Of(r, Bmc).intent == Of(t, Bmc).intent
  {
    WorksFacts(t, r, Pch, 0);
    hide Works;
  }

  lemma ThenBothReady(b: Board, s: State, t: State, r: State, n: nat)
    requires Works(s, t, Bmc, n) && Works(t, r, Pch, 0) && !s.bmc.flags.readyCpld
    requires Ready(b, t, Bmc) && Ready(b, r, Pch) && Of(r, Pch).intent == NONE
    ensures BothReady(b, r) && Of(r, Bmc).intent == Of(t, Bmc).intent
  {
    hide Works, Ready;
    WorksFacts(s, t, Bmc, n);
    WorksFacts(t, r, Pch, 0);
    OtherStaysReady(b, t, r, Bmc);
  }

  lemma StoppedIsReady(b: Board, r: State)
    requires r.mode != Running
    ensures BothReady(b, r)
  {
  }

  lemma WorksFacts(s: State, r: State, dev: Dev, n: nat)
    requires Works(s, r, dev, n)
    ensures Of(r, dev).flags.readyCpld == Of(s, dev).flags.readyCpld && Of(r, Other(dev)) == Of(s, Other(dev))
    ensures r.mode == Lockdown ==> s.mode == Lockdown
  {
    hide Adds, Leveled, Count, DataKept;
  }

  lemma OtherStaysReady(b: Board, s: State, r: State, dev: Dev)
    requires Ready(b, s, dev) && Works(s, r, Other(dev), 0)
    ensures Ready(b, r, dev)
  {
    hide Adds, Leveled, Count, Vouched;
    if !Of(s, dev).flags.allFailed {
      OtherWorkKeepsVouched(b, s.log, r.log, dev, Of(s, dev).mem, {Other(dev)});
    }
  }

  lemma Tmin1Is(b: Board, s: State, e: Pins)
    requires Sized(b, s)
    ensures Tmin1(b, s, e) == if !e.pitPasses then s.(mode := Lockdown)
                              else var t := Prepared(b, s); if t.mode == Running then OperateOnBoth(b, t, e) else t
  {
    hide OperateOnBoth, Prepared, Sized;
  }

  // What T-1 on both flashes does; the CPLD bits of the BMC intent are settled when the protect-in-transit
  // check passes, unless the firmware goes astray
  lemma Tmin1Works(b: Board, s: State, e: Pins) returns (n: nat, p: nat)
    requires Sized(b, s) && s.mode == Running && !s.pch.flags.readyCpld && Inside(s.log, Bmc) && Inside(s.log, Pch)
    ensures p <= (if s.bmc.flags.readyCpld && e.pitPasses then 1 else 0) && n <= (if s.bmc.intent.Cpld() then 1 else 0)
    ensures var r := Tmin1(b, s, e);
            && WorksOnBoth(s, r, n, p) && BothReady(b, r)
            && (e.pitPasses && r.mode != Astray ==> IntentSettled(Prepared(b, s), r, n) && SameRequest(s, Prepared(b, s)))
            && (!e.pitPasses ==> n == 0) && (r.mode == Lockdown <==> !e.pitPasses)
  {
    hide *;
    Tmin1Is(b, s, e);
    n, p := 0, 0;
    if e.pitPasses {
      p := PreparedWorks(b, s);
      var t := Prepared(b, s);
      PreparedFacts(s, t, p);
      if t.mode == Running {
        BothInside(s, t, Bmc, 0, p);
        BothInside(s, t, Pch, 0, p);
        n := OperateOnBothWorks(b, t, e);
        BothThenBoth(s, t, OperateOnBoth(b, t, e), 0, n, p, 0);
        SettledAtMost(t, OperateOnBoth(b, t, e), n);
      } else {
        StoppedIsReady(b, t);
      }
    } else {
      LockedWorks(s);
      StoppedIsReady(b, s.(mode := Lockdown));
    }
  }

  lemma SettledAtMost(s: State, r: State, n: nat)
    requires IntentSettled(s, r, n)
    ensures n <= (if s.bmc.intent.Cpld() then 1 else 0)
  {
  }

  // The BMC intent is as it was, no firmware recovery update is pending, and no PCH update was requested
  // unless one was before
  ghost predicate SameRequest(s: State, t: State) {
    && t.bmc.intent == s.bmc.intent && t.mode == s.mode && !Pending(t)
    && (!s.bmc.intent.PchFw() ==> (t.pch.intent.PchFw() <==> s.pch.intent.PchFw()))
  }

  lemma PreparedFacts(s: State, t: State, p: nat)
    requires Prepares(s, t, p) && s.mode == Running && (t.mode == Running ==> !Pending(t))
    ensures WorksOnBoth(s, t, 0, p) && t.bmc.intent == s.bmc.intent
    ensures t.mode == Running ==> SameRequest(s, t)
    ensures t.mode != Running ==> t.mode == Astray
  {
    hide WorksOnBoth, Pending;
  }

  lemma LockedWorks(s: State)
    ensures WorksOnBoth(s, s.(mode := Lockdown), 0, 0)
  {
    AddsNothing(s.log, {Bmc, Pch});
    SameData(s, s.(mode := Lockdown));
    hide Adds, Leveled, Count, DataKept;
  }
}
