/**
 What single functions of T-1 and T0 come to: which updates touch a flash, what is handed to the other
 flash, who leaves reset, when a watchdog has its last word, when a recovery level is reset, and which
 intents wait.
 */
module PlatformEffects {
  import opened NorFlash
  import opened SpiRwUtils
  import opened Ufm
  import opened Authentication
  import opened PfmValidation
  import opened CapsuleValidation
  import opened FlashValidation
  import opened Platform
  import opened PlatformLog
  import opened PlatformWork
  import opened PlatformSteps
  import opened PlatformSafety

  // ---------------------------------------------------------------- updates

  function PolicyOf(dev: Dev): SvnPolicy { if dev == Bmc then BmcPolicy else PchPolicy }

  // The staged capsule is an authentic firmware capsule of this flash, with an SVN that the minimum allows
  // and, unless a recovery update was asked for, the one of the recovery image
  ghost predicate Admits(b: Board, s: State, dev: Dev, recovery: bool)
    requires IsPage(s.page)
  {
    var m, at := Of(s, dev).mem, b.Map(dev).Staging();
    && at + 514 <= |m| && CapsuleValid(b.d, s.page, m, at) && m[at + 2] == (if dev == Bmc then 4 else 2)
    && UfmSvn(s.page, PolicyOf(dev)) <= PfmSvn(m, at) <= 64 && (recovery || Of(s, dev).svn == PfmSvn(m, at))
  }

  // An update writes the flash, or makes a promotion due, only with such a capsule
  lemma OnlyAdmittedUpdates(b: Board, s: State, dev: Dev, i: Intent)
    requires Sized(b, s) && IsPage(s.page) && (if dev == Bmc then i.BmcFw() else i.PchFw())
    ensures var side, r := Of(s, dev), Of(FirmwareUpdate(b, s, dev, i), dev);
            var recovery := if dev == Bmc then i.bmcRecovery else i.pchRecovery;
            && (r.mem != side.mem || (r.flags.pending && !side.flags.pending) ==> Admits(b, s, dev, recovery))
            && (r.flags.pending && !side.flags.pending ==> recovery)
  {
    StagingFits(b, s, dev);
    var only := if dev == Bmc then i.OnlyBmcFw() else i.OnlyPchFw();
    var v := Examine(b, s, dev, b.Map(dev).Staging(), only);
    ExamineIs(b, s, dev, b.Map(dev).Staging(), only);
    if v == Proceeds {
      AdmittedForDevice(b, s, dev, i, only.Word());
      UpdateDue(b, s, dev, i);
    } else {
      RefusalWritesNothing(b, s, dev, v);
    }
    assert FirmwareUpdate(b, s, dev, i) == if v == Proceeds then ActiveUpdate(b, s, dev, i) else Examined(b, s, dev, v);
    hide *;
  }

  lemma UpdateDue(b: Board, s: State, dev: Dev, i: Intent)
    requires Sized(b, s)
    ensures var recovery := if dev == Bmc then i.bmcRecovery else i.pchRecovery;
            Of(ActiveUpdate(b, s, dev, i), dev).flags.pending && !Of(s, dev).flags.pending ==> recovery
  {
    hide CanUpdate, UpdatedImage, LaidOut, Timers;
  }

  lemma RefusalWritesNothing(b: Board, s: State, dev: Dev, v: Verdict)
    requires Sized(b, s) && (v.CancelsKey? ==> v.id <= 127)
    ensures var r := Of(Examined(b, s, dev, v), dev); r.mem == Of(s, dev).mem && r.flags == Of(s, dev).flags
  {
    hide PageAfter, LaidOut;
  }

  lemma UpdateBits(i: Intent, dev: Dev, t: Word)
    requires if dev == Bmc then i.BmcFw() else i.PchFw()
    ensures var w := (if dev == Bmc then i.OnlyBmcFw() else i.OnlyPchFw()).Word();
            && (TypeMatches(t, w) && !AnyOf(t, 0x100) ==> t == if dev == Bmc then 4 else 2)
            && (AnyOf(w, BMC_RECOVERY) <==> dev == Bmc && i.bmcRecovery) && (AnyOf(w, PCH_RECOVERY) <==> dev == Pch && i.pchRecovery)
  {
  }

  lemma AdmittedForDevice(b: Board, s: State, dev: Dev, i: Intent, w: Word)
    requires Sized(b, s) && IsPage(s.page) && b.Map(dev).Staging() + 514 <= |Of(s, dev).mem|
    requires Check(b.d, s.page, Of(s, dev).mem, b.Map(dev).Staging(), w, s.pch.svn, s.bmc.svn) == Proceeds
    requires (if dev == Bmc then i.BmcFw() else i.PchFw()) && w == (if dev == Bmc then i.OnlyBmcFw() else i.OnlyPchFw()).Word()
    ensures Admits(b, s, dev, if dev == Bmc then i.bmcRecovery else i.pchRecovery)
  {
    hide *;
    var m, at := Of(s, dev).mem, b.Map(dev).Staging();
    ProceedingType(b.d, s.page, m, at, w, s.pch.svn, s.bmc.svn);
    UpdateBits(i, dev, m[at + 2]);
    AdmittedFirmware(b.d, s.page, m, at, w, s.pch.svn, s.bmc.svn);
    AdmitsWhen(b, s, dev, w, m, at, if dev == Bmc then i.bmcRecovery else i.pchRecovery);
  }

  lemma AdmitsWhen(b: Board, s: State, dev: Dev, w: Word, m: Mem, at: nat, recovery: bool)
    requires IsPage(s.page) && m == Of(s, dev).mem && at == b.Map(dev).Staging() && at + 514 <= |m|
    requires CapsuleValid(b.d, s.page, m, at) && m[at + 2] == if dev == Bmc then 4 else 2
    requires (AnyOf(w, BMC_RECOVERY) <==> dev == Bmc && recovery) && (AnyOf(w, PCH_RECOVERY) <==> dev == Pch && recovery)
    requires || (m[at + 2] == 2 && UfmSvn(s.page, PchPolicy) <= PfmSvn(m, at) <= 64
                 && (AnyOf(w, PCH_RECOVERY) || s.pch.svn == PfmSvn(m, at)))
             || (m[at + 2] == 4 && UfmSvn(s.page, BmcPolicy) <= PfmSvn(m, at) <= 64
                 && (AnyOf(w, BMC_RECOVERY) || s.bmc.svn == PfmSvn(m, at)))
    ensures Admits(b, s, dev, recovery)
  {
    hide CapsuleValid, UfmSvn, PfmSvn, AnyOf;
  }

  // What may proceed matches the intent and is no certificate
  lemma ProceedingType(d: Device, u: Mem, m: Mem, at: nat, w: Word, pchSvn: nat, bmcSvn: nat)
    requires IsPage(u) && at + 514 <= |m| && Check(d, u, m, at, w, pchSvn, bmcSvn) == Proceeds
    ensures TypeMatches(m[at + 2], w) && !AnyOf(m[at + 2], 0x100)
  {
    assert HoldsPayload(m, at);
    AtItsPlace(m, at);
    assert PayloadAt(m, at)[2] == m[at + 2];
    hide SignatureValid, KchPcType, SvnAdmitted, PbcValid, TypeMatches, HoldsPayload, PayloadAt, FirmwareAdmitted, CertId;
  }

  // ---------------------------------------------------------------- a capsule for the other flash

  // A PCH capsule that was found good in the BMC flash lies in the PCH staging region afterwards, word for
  // word and as authentic as it was, with nothing else changed there, and the PCH is asked to use it
  lemma HandedOverCapsule(b: Board, s: State)
    requires Sized(b, s) && IsPage(s.page) && s.bmc.intent.PchFw() && b.StagedPch() + 514 <= |s.bmc.mem|
    requires Examine(b, s, Bmc, b.StagedPch(), s.bmc.intent.OnlyPchFw()) == Proceeds
    requires CanHandOver(s.pch.mem, s.bmc.mem, b.StagedPch(), b.pch.staging) && HoldsPayload(s.bmc.mem, b.StagedPch())
    ensures var r, at := PrepForOob(b, s), b.pch.Staging();
            && r.mode == s.mode && r.page == s.page && r.bmc == s.bmc && (r.pch.intent.PchFw() || r.pch.flags.pending)
            && HoldsPayload(r.pch.mem, at) && PayloadAt(r.pch.mem, at) == PayloadAt(s.bmc.mem, b.StagedPch())
            && ValidAt(b.d, r.page, r.pch.mem, at)
            && SameOutside(r.pch.mem, s.pch.mem, b.pch.staging, b.pch.staging + PagesUpTo(SignedPayloadSize(s.bmc.mem, b.StagedPch())))
  {
    var m := CopiedTo(s.pch.mem, s.bmc.mem, b.StagedPch(), b.pch.staging);
    assert PrepForOob(b, s) == Noted(s.(pch := HandedOver(s.bmc.intent, s.pch, m)), Written(Pch));
    HandedOverAsks(s.bmc.intent, s.pch, m);
    ExaminedIsValid(b, s, Bmc, b.StagedPch(), s.bmc.intent.OnlyPchFw());
    CopiedToHolds(b.d, s.page, s.pch.mem, s.bmc.mem, b.StagedPch(), b.pch.staging);
    assert b.pch.Staging() == 1024 * b.pch.staging;
    hide PrepForOob, HandedOver, CopiedTo, CanHandOver, HoldsPayload, PayloadAt, ValidAt, SameOutside, Sized, Examine, PagesUpTo, SignedPayloadSize;
  }

  lemma HandedOverAsks(i: Intent, side: Side, mem: Mem)
    requires i.PchFw()
    ensures var next := HandedOver(i, side, mem); next.mem == mem && (next.intent.PchFw() || next.flags.pending)
  {
  }

  lemma ExaminedIsValid(b: Board, s: State, dev: Dev, at: nat, i: Intent)
    requires Sized(b, s) && IsPage(s.page) && at + 514 <= |Of(s, dev).mem| && Examine(b, s, dev, at, i) == Proceeds
    ensures ValidAt(b.d, s.page, Of(s, dev).mem, at)
  {
    ExamineIs(b, s, dev, at, i);
    hide Examine, ValidAt, TypeMatches, PayloadAt, IsCertificate, IsDecommission, KchPcType, CertId, SvnAdmitted, FirmwareAdmitted, PbcValid, Sized;
  }

  lemma CopiedToHolds(d: Device, u: Mem, m: Mem, src: Mem, from: nat, page: nat)
    requires IsPage(u) && CanHandOver(m, src, from, page) && HoldsPayload(src, from) && from + 1 < |src| && ValidAt(d, u, src, from)
    ensures var r, at := CopiedTo(m, src, from, page), 1024 * page;
            && HoldsPayload(r, at) && PayloadAt(r, at) == PayloadAt(src, from) && ValidAt(d, u, r, at)
            && SameOutside(r, m, page, page + PagesUpTo(SignedPayloadSize(src, from)))
  {
    hide *;
    var n, data := SignedPayloadSize(src, from), PayloadAt(src, from);
    AtItsPlace(src, from);
    CopiedToIs(m, src, from, page, n, data);
    EnoughPages(page, n, |data|, |m|);
    var hi := page + PagesUpTo(n);
    ProgrammedErased(m, page, hi, 1024 * page, data);
    RewrittenHolds(m, page, hi, 1024 * page, data);
    RewrittenOutside(m, page, hi, 1024 * page, data);
    HeldAt(Rewritten(m, page, hi, 1024 * page, data), 1024 * page, data);
    SameVerdict(d, u, src, from, CopiedTo(m, src, from, page), 1024 * page);
  }

  lemma CopiedToIs(m: Mem, src: Mem, from: nat, page: nat, n: nat, data: seq<Word>)
    requires CanHandOver(m, src, from, page) && from + 1 < |src| && n == SignedPayloadSize(src, from)
    requires HoldsPayload(src, from) && data == PayloadAt(src, from)
    ensures 4096 * page + n <= 4 * |m|
    ensures CopiedTo(m, src, from, page) == Programmed(ErasePages(m, page, page + PagesUpTo(n)), 1024 * page, data)
  {
    hide Programmed, ErasePages, PagesUpTo, PayloadAt, HoldsPayload, SignedPayloadSize;
  }

  lemma EnoughPages(page: nat, n: nat, words: nat, all: nat)
    requires words == n / 4 && 4096 * page + n <= 4 * all
    ensures 1024 * page + words <= 1024 * (page + PagesUpTo(n)) && 1024 * page + words <= all && 1024 * page <= 1024 * page
  {
  }

  lemma HeldAt(r: Mem, at: nat, data: seq<Word>)
    requires at + |data| <= |r| && r[at..at + |data|] == data
    ensures WordsAt(r, at, data)
  {
  }

  // ---------------------------------------------------------------- who leaves reset

  // A platform reset of a provisioned platform releases the BMC exactly when its flash did not fail
  // altogether, and the PCH exactly when neither did. It locks the platform down, with both held, exactly
  // when the protect-in-transit check fails or both flashes failed altogether, unless it ends otherwise
  // before: in a reconfiguration, or on contents that cannot be used.
  lemma ResetReleasesIff(b: Board, s: State, e: Pins)
    requires Sized(b, s) && Sound(b, s) && s.mode == Running && s.provisioned
    ensures var r := PlatformReset(b, s, e);
            && (r.mode == Running ==> (r.bmc.held <==> r.bmc.flags.allFailed)
                                      && (r.pch.held <==> r.bmc.flags.allFailed || r.pch.flags.allFailed))
            && (r.mode == Lockdown ==> r.bmc.held && r.pch.held) && (!e.pitPasses ==> r.mode == Lockdown)
            && (e.pitPasses && r.mode != Reconfiguring && r.mode != Astray ==>
                  (r.mode == Lockdown <==> r.bmc.flags.allFailed && r.pch.flags.allFailed))
  {
    hide *;
    PlatformResetIs(b, s, e);
    var t := HoldBoth(s);
    HeldSound(b, s);
    SameMode(s, t);
    SoundFacts(b, t);
    BothHeld(s);
    var n, p := Tmin1Works(b, t, e);
    var x := Tmin1(b, t, e);
    StillHeld(t, x, n, p);
    if x.mode == Running {
      LeavingIff(x);
    }
  }

  lemma BothHeld(s: State)
    ensures HoldBoth(s).bmc.held && HoldBoth(s).pch.held
  {
  }

  lemma StillHeld(s: State, r: State, m: nat, n: nat)
    requires WorksOnBoth(s, r, m, n)
    ensures r.bmc.held == s.bmc.held && r.pch.held == s.pch.held
  {
    hide Adds, Leveled, Count, DataKept;
  }

  lemma LeavingIff(x: State)
    requires x.bmc.held && x.pch.held && x.mode == Running
    ensures var r := EnterT0(x);
            && (r.mode == Running ==> (r.bmc.held <==> r.bmc.flags.allFailed)
                                      && (r.pch.held <==> r.bmc.flags.allFailed || r.pch.flags.allFailed))
            && (r.mode == Lockdown ==> r.bmc.held && r.pch.held) && (r.mode == Running || r.mode == Lockdown)
            && (r.mode == Lockdown <==> r.bmc.flags.allFailed && r.pch.flags.allFailed)
  {
  }

  // A reset of the BMC alone touches nothing of the PCH, and releases the BMC exactly when its flash did
  // not fail altogether
  lemma BmcOnlyResetSparesPch(b: Board, s: State, force: bool)
    requires Sized(b, s) && s.mode == Running
    ensures var r := BmcOnlyReset(b, s, force);
            r.pch == s.pch && (r.mode == Running ==> (r.bmc.held <==> r.bmc.flags.allFailed))
  {
    hide *;
    BmcOnlyResetIs(b, s, force);
    var t := Hold(s, Bmc);
    HeldNow(s, Bmc);
    var x := OperateOn(b, t, Bmc, force);
    var n := OperateOnBmcWorks(b, t, force);
    AloneFacts(t, x, Bmc, n);
    BmcLeavesIff(x);
  }

  // A reset of the PCH alone touches nothing of the BMC, and releases the PCH exactly when neither flash
  // failed altogether
  lemma PchOnlyResetSparesBmc(b: Board, s: State, force: bool)
    requires Sized(b, s) && s.mode == Running
    ensures var r := PchOnlyReset(b, s, force);
            r.bmc == s.bmc && (r.mode == Running ==> (r.pch.held <==> r.bmc.flags.allFailed || r.pch.flags.allFailed))
  {
    hide *;
    PchOnlyResetIs(b, s, force);
    var t := Hold(s, Pch);
    HeldNow(s, Pch);
    var x := OperateOn(b, t, Pch, force);
    OperateOnPchWorks(b, t, force);
    AloneFacts(t, x, Pch, 0);
    PchLeavesIff(x);
  }

  lemma HeldNow(s: State, dev: Dev)
    ensures var t := Hold(s, dev); t.mode == s.mode && Of(t, dev).held && Of(t, Other(dev)) == Of(s, Other(dev))
    ensures s.bmc == Of(s, Bmc) && s.pch == Of(s, Pch) && Hold(s, dev).bmc == Of(Hold(s, dev), Bmc) && Hold(s, dev).pch == Of(Hold(s, dev), Pch)
    ensures Other(Bmc) == Pch && Other(Pch) == Bmc
  {
  }

  lemma AloneFacts(t: State, x: State, dev: Dev, n: nat)
    requires Works(t, x, dev, n)
    ensures Of(x, dev).held == Of(t, dev).held && Of(x, Other(dev)) == Of(t, Other(dev))
    ensures x.bmc == Of(x, Bmc) && x.pch == Of(x, Pch)
  {
    hide Adds, Leveled, Count, DataKept;
  }

  lemma BmcLeavesIff(x: State)
    requires x.bmc.held
    ensures var r := EnterT0BmcOnly(x); r.pch == x.pch && (r.bmc.held <==> r.bmc.flags.allFailed)
  {
  }

  lemma PchLeavesIff(x: State)
    requires x.pch.held
    ensures var r := BootPch(x); r.bmc == x.bmc && (r.pch.held <==> r.bmc.flags.allFailed || r.pch.flags.allFailed)
  {
  }

  // ---------------------------------------------------------------- an ordinary power-up

  // Nothing is requested, due or pending for a flash
  predicate Idle(side: Side) { side.intent == NONE && side.flags == CLEAR }

  lemma IdlePrepared(b: Board, s: State)
    requires Sized(b, s) && Idle(s.bmc) && Idle(s.pch)
    ensures Prepared(b, s) == s
  {
    assert !NONE.PchFw();
    hide Sized;
  }

  lemma IdleOperates(b: Board, s: State, dev: Dev, force: bool)
    requires Sized(b, s) && s.mode == Running && Idle(Of(s, dev))
    ensures var q := Quieted(s, dev);
            && Sized(b, q) && Of(q, dev) == Of(s, dev) && Of(q, Other(dev)) == Of(s, Other(dev)) && q.page == s.page && q.mode == Running
            && OperateOn(b, s, dev, force) == Authenticated(b, q, dev, force)
  {
    var q := Quieted(s, dev);
    assert Sized(b, q);
    assert !NONE.PchFw() && !NONE.BmcFw() && !NONE.Cpld();
    assert ActOn(b, q, dev) == q by { hide LaidOut; }
    assert WdtRecovery(b, q, dev) == q by { hide LaidOut, ValidAt; }
    hide Sized, Authenticated, ActOn, WdtRecovery;
  }

  // The authentication of a flash, when it can be carried out
  lemma OrdinaryAuthentication(b: Board, s: State, dev: Dev, force: bool)
    requires Sized(b, s) && IsPage(s.page) && s.mode == Running && LaidOut(b.Map(dev), |Of(s, dev).mem|)
    requires Workable(b.d, s.page, Of(s, dev).mem, b.Map(dev), force)
    ensures var r := Authenticated(b, s, dev, force);
            && r.mode == Running && Of(r, Other(dev)) == Of(s, Other(dev)) && Of(r, dev).held == Of(s, dev).held
            && (Of(r, dev).flags.allFailed <==> !Bootable(b.d, s.page, Of(s, dev).mem, b.Map(dev)))
            && exists p: SvnPolicy, svn: nat :: OnlySvn(s.page, r.page, p, svn)
  {
    var m, cfg := Of(s, dev).mem, b.Map(dev);
    AuthenticatedOrHeld(b.d, s.page, m, cfg, force);
    AuthenticatedPage(b.d, s.page, m, cfg, force);
    StoredOutcome(b, s, dev, force);
    hide *;
  }

  predicate OnlySvn(u: Mem, v: Mem, p: SvnPolicy, svn: nat) { v == u || (IsPage(u) && v == SvnWritten(u, p, svn)) }

  lemma AuthenticatedPage(d: Device, u: Mem, m: Mem, cfg: FlashMap, force: bool)
    requires IsPage(u) && LaidOut(cfg, |m|)
    ensures exists p: SvnPolicy, svn: nat :: OnlySvn(u, Authenticate(d, u, m, cfg, force).page, p, svn)
  {
    AuthenticateCases(d, u, m, cfg, force);
    var v := Authenticate(d, u, m, cfg, force).page;
    hide Authenticate, SvnWritten, ActiveValid, CapsuleValid, Promotable, Promoted, ActiveRebuilt, PfmSvn, LaidOut;
    if v == u {
      assert OnlySvn(u, v, cfg.policy, 0);
    } else {
      assert OnlySvn(u, v, cfg.policy, PfmSvn(Promoted(m, cfg), cfg.Staging()));
    }
  }

  lemma StoredOutcome(b: Board, s: State, dev: Dev, force: bool)
    requires Sized(b, s) && IsPage(s.page) && LaidOut(b.Map(dev), |Of(s, dev).mem|)
    requires Workable(b.d, s.page, Of(s, dev).mem, b.Map(dev), force)
    ensures var r, o := Authenticated(b, s, dev, force), Authenticate(b.d, s.page, Of(s, dev).mem, b.Map(dev), force);
            && r.mode == s.mode && Of(r, Other(dev)) == Of(s, Other(dev)) && Of(r, dev).held == Of(s, dev).held
            && Of(r, dev).flags.allFailed == o.allFailed && r.page == o.page
  {
    hide Authenticate, Workable, PfmSvn, LaidOut;
  }

  lemma VerdictsStay(d: Device, u: Mem, v: Mem, m: Mem, cfg: FlashMap)
    requires IsPage(u) && IsPage(v) && LaidOut(cfg, |m|) && exists p: SvnPolicy, svn: nat :: OnlySvn(u, v, p, svn)
    ensures Bootable(d, v, m, cfg) <==> Bootable(d, u, m, cfg)
    ensures forall force: bool :: Workable(d, v, m, cfg, force) <==> Workable(d, u, m, cfg, force)
  {
    var p: SvnPolicy, svn: nat :| OnlySvn(u, v, p, svn);
    SvnWriteKeepsVerdicts(d, u, p, svn, m, cfg);
    hide Bootable, Workable, SvnWritten;
  }

  // The contents of both flashes are such that what is decided on them can be carried out
  predicate BothWorkable(b: Board, u: Mem, bmc: Mem, pch: Mem, e: Pins)
    requires IsPage(u) && LaidOut(b.bmc, |bmc|) && LaidOut(b.pch, |pch|)
  {
    Workable(b.d, u, bmc, b.bmc, e.forceBmc) && Workable(b.d, u, pch, b.pch, e.forcePch)
  }

  // What both flashes come to when nothing is requested or due
  lemma IdleBoth(b: Board, s: State, e: Pins)
    requires Sized(b, s) && s.mode == Running && Idle(s.bmc) && Idle(s.pch) && e.pitPasses && IsPage(s.page)
    requires LaidOut(b.bmc, |s.bmc.mem|) && LaidOut(b.pch, |s.pch.mem|)
    ensures var r := Tmin1(b, s, e);
            && r.mode == (if BothWorkable(b, s.page, s.bmc.mem, s.pch.mem, e) then Running else Astray)
            && r.bmc.held == s.bmc.held && r.pch.held == s.pch.held
            && (r.mode == Running ==>
                  && (r.bmc.flags.allFailed <==> !Bootable(b.d, s.page, s.bmc.mem, b.bmc))
                  && (r.pch.flags.allFailed <==> !Bootable(b.d, s.page, s.pch.mem, b.pch)))
  {
    hide *;
    Tmin1Is(b, s, e);
    IdlePrepared(b, s);
    OperateOnBothIs(b, s, e);
    Sides(b, s);
    BothAre(b, s.page, s.bmc.mem, s.pch.mem, e);
    IdleOperates(b, s, Bmc, e.forceBmc);
    var q := Quieted(s, Bmc);
    Sides(b, OperateOn(b, s, Bmc, e.forceBmc));
    if Workable(b.d, s.page, s.bmc.mem, b.bmc, e.forceBmc) {
      OrdinaryAuthentication(b, q, Bmc, e.forceBmc);
      ThenPch(b, s, OperateOn(b, s, Bmc, e.forceBmc), e.forcePch);
    } else {
      LostOnContents(b, q, Bmc, e.forceBmc);
    }
  }

  lemma ThenPch(b: Board, s: State, t: State, force: bool)
    requires Sized(b, t) && t.mode == Running && t.pch == s.pch && Idle(s.pch) && IsPage(s.page) && LaidOut(b.pch, |s.pch.mem|)
    requires exists p: SvnPolicy, svn: nat :: OnlySvn(s.page, t.page, p, svn)
    ensures var r := OperateOn(b, t, Pch, force);
            && r.mode == (if Workable(b.d, s.page, s.pch.mem, b.pch, force) then Running else Astray)
            && r.bmc == t.bmc && r.pch.held == s.pch.held
            && (r.mode == Running ==> (r.pch.flags.allFailed <==> !Bootable(b.d, s.page, s.pch.mem, b.pch)))
  {
    hide *;
    Sides(b, t);
    StagingFits(b, t, Pch);
    VerdictsStay(b.d, s.page, t.page, s.pch.mem, b.pch);
    IdleOperates(b, t, Pch, force);
    var q := Quieted(t, Pch);
    if Workable(b.d, s.page, s.pch.mem, b.pch, force) {
      OrdinaryAuthentication(b, q, Pch, force);
    } else {
      LostOnContents(b, q, Pch, force);
    }
    Sides(b, OperateOn(b, t, Pch, force));
  }

  lemma BothAre(b: Board, u: Mem, bmc: Mem, pch: Mem, e: Pins)
    requires IsPage(u) && LaidOut(b.bmc, |bmc|) && LaidOut(b.pch, |pch|)
    ensures BothWorkable(b, u, bmc, pch, e)
       <==> Workable(b.d, u, bmc, b.bmc, e.forceBmc) && Workable(b.d, u, pch, b.pch, e.forcePch)
  {
    hide Workable;
  }

  lemma LostOnContents(b: Board, s: State, dev: Dev, force: bool)
    requires Sized(b, s) && IsPage(s.page) && LaidOut(b.Map(dev), |Of(s, dev).mem|)
    requires !Workable(b.d, s.page, Of(s, dev).mem, b.Map(dev), force)
    ensures var r := Authenticated(b, s, dev, force);
            r.mode == Astray && Of(r, dev) == Of(s, dev) && Of(r, Other(dev)) == Of(s, Other(dev))
  {
    hide Workable, LaidOut, Authenticate;
  }

  lemma Sides(b: Board, s: State)
    ensures Of(s, Bmc) == s.bmc && Of(s, Pch) == s.pch && Other(Bmc) == Pch && Other(Pch) == Bmc && b.Map(Bmc) == b.bmc && b.Map(Pch) == b.pch
  {
  }

  // From power-up to release: on a provisioned platform that passes the protect-in-transit check, the
  // firmware stays on its way exactly when the signed contents it goes by can be used. Then the BMC starts
  // exactly when its flash has a region to start from, and the PCH exactly when both flashes have; with none
  // in either the platform locks down.
  lemma PowerUpReleasesIff(b: Board, s: State, i: Input, e: Pins)
    requires Sized(b, s) && SameParts(s, i) && i.PowerUp? && i.provisioned && e.pitPasses && IsPage(i.page)
    requires LaidOut(b.bmc, |i.bmc|) && LaidOut(b.pch, |i.pch|)
    ensures Sized(b, PoweredUp(b, s, i))
    ensures var r := PlatformReset(b, PoweredUp(b, s, i), e);
            var bmc, pch := Bootable(b.d, i.page, i.bmc, b.bmc), Bootable(b.d, i.page, i.pch, b.pch);
            && r.mode == (if !BothWorkable(b, i.page, i.bmc, i.pch, e) then Astray else if bmc || pch then Running else Lockdown)
            && (r.mode == Astray ==> r.bmc.held && r.pch.held)
            && (r.mode != Astray ==> (!r.bmc.held <==> bmc) && (!r.pch.held <==> bmc && pch))
  {
    hide *;
    FreshIsIdle(b, s, i);
    var t := HoldBoth(PoweredUp(b, s, i));
    PlatformResetIs(b, PoweredUp(b, s, i), e);
    IdleBoth(b, t, e);
    if Tmin1(b, t, e).mode == Running {
      StartIff(Tmin1(b, t, e));
    }
  }

  lemma FreshIsIdle(b: Board, s: State, i: Input)
    requires Sized(b, s) && SameParts(s, i) && i.PowerUp?
    ensures Sized(b, PoweredUp(b, s, i))
    ensures var t := HoldBoth(PoweredUp(b, s, i));
            && Sized(b, t) && t.mode == Running && t.provisioned == i.provisioned && Idle(t.bmc) && Idle(t.pch) && t.page == i.page
            && t.bmc.mem == i.bmc && t.pch.mem == i.pch && t.bmc.held && t.pch.held
  {
    hide LaidOut;
  }

  lemma StartIff(x: State)
    requires x.bmc.held && x.pch.held && x.mode == Running
    ensures var r := EnterT0(x);
            && r.mode == (if x.bmc.flags.allFailed && x.pch.flags.allFailed then Lockdown else Running)
            && (!r.bmc.held <==> !x.bmc.flags.allFailed) && (!r.pch.held <==> !x.bmc.flags.allFailed && !x.pch.flags.allFailed)
  {
  }

  // ---------------------------------------------------------------- watchdogs

  // What the watchdog timer of a component makes of an expiry
  function Expired(b: Board, s: State, dev: Dev, e: Pins): (r: State)
    requires Sized(b, s)
    ensures Sized(b, r)
  {
    if dev == Bmc then BmcWatchdog(b, s, true, NoMessage, e) else MeWatchdog(b, s, true, false, e)
  }

  function TimerOf(dev: Dev): Timer { if dev == Bmc then BmcTimer else MeTimer }

  // In every state of a run, an expired timer resets the platform with a recovery of that component
  // requested as long as there were fewer than three since the level was reset. After three it is turned
  // off, and no later expiry does anything.
  lemma WatchdogHasThreeTries(b: Board, s: State, dev: Dev, e: Pins, f: Pins)
    requires Sized(b, s) && Safe(b, s) && TimerOf(dev) in s.enabled && TimerOf(dev) in s.armed
    ensures var side, r := Of(s, dev), Expired(b, s, dev, e);
            var asked := Put(s, dev, side.(flags := CLEAR.(requireWdt := true)));
            && side.recoveries <= 3 && Sized(b, asked)
            && (side.recoveries < 3 ==> r == PlatformReset(b, asked, e))
            && (side.recoveries == 3 ==> SameFlashes(s, r) && r.log == s.log && Expired(b, r, dev, f) == r)
  {
    LevelsOf(b, s, dev);
    var asked := Put(s, dev, Of(s, dev).(flags := CLEAR.(requireWdt := true)));
    assert Sized(b, asked);
    assert Expired(b, s, dev, e) == TriggerWdt(b, s, dev, e);
    hide PlatformReset, Safe, Sized;
  }

  lemma LevelsOf(b: Board, s: State, dev: Dev)
    requires Safe(b, s)
    ensures Of(s, dev).recoveries <= 3 && (Of(s, dev).level & 0x1C != 0 <==> Of(s, dev).recoveries < 3)
  {
    assert Leveled(Of(s, dev));
    LevelIsSpent(Of(s, dev).recoveries);
    hide GoodLog, LevelMask;
  }

  lemma LevelIsSpent(n: nat)
    requires n <= 3
    ensures LevelMask(n) & 0x1C != 0 <==> n < 3
  {
  }

  // ---------------------------------------------------------------- levels over runs

  // What completes the boot of a component: the BMC's report; for the PCH the later one of ME's and BIOS's
  predicate Completes(s: State, i: Input, dev: Dev) {
    match i
    case PollBmcTimer(expired, chk) => dev == Bmc && BmcTimer in s.enabled * s.armed && !expired && chk.Complete?
    case PollMeTimer(expired, ready) =>
      dev == Pch && MeTimer in s.enabled * s.armed && !expired && ready && Obb in s.booted
    case PollAcmBiosTimer(_, bios, _) =>
      dev == Pch && AcmBiosTimer in s.enabled * s.armed && bios.Complete? && Ibb in s.booted && Me in s.booted
    case _ => false
  }

  // No watchdog recovery since the level was reset is forgotten
  predicate Climbs(s: State, r: State, dev: Dev) { Of(s, dev).recoveries <= Of(r, dev).recoveries }

  lemma ResetClimbs(b: Board, s: State, e: Pins, dev: Dev)
    requires Sized(b, s) && Sound(b, s) && s.mode == Running
    ensures Climbs(s, PlatformReset(b, s, e), dev)
  {
    hide *;
    PlatformResetIs(b, s, e);
    var t := HoldBoth(s);
    HeldSound(b, s);
    SameMode(s, t);
    SoundFacts(b, t);
    if t.provisioned {
      var n, p := Tmin1Works(b, t, e);
      BothClimb(t, Tmin1(b, t, e), n, p, dev);
    }
    LeavingClimbs(s, t, if t.provisioned then Tmin1(b, t, e) else t, dev);
  }

  lemma BothClimb(s: State, r: State, m: nat, n: nat, dev: Dev)
    requires WorksOnBoth(s, r, m, n)
    ensures Climbs(s, r, dev)
  {
    hide Adds, Leveled, Count, DataKept;
  }

  lemma LeavingClimbs(s: State, t: State, x: State, dev: Dev)
    requires t == HoldBoth(s)
    ensures Climbs(x, EnterT0(x), dev) && (t == x || Climbs(t, x, dev) ==> Climbs(s, x, dev) && Climbs(s, EnterT0(x), dev))
  {
  }

  lemma AloneClimbs(b: Board, s: State, force: bool, dev: Dev)
    requires Sized(b, s) && s.mode == Running
    ensures Climbs(s, BmcOnlyReset(b, s, force), dev) && Climbs(s, PchOnlyReset(b, s, force), dev)
  {
    hide *;
    BmcOnlyResetSparesPch(b, s, force);
    PchOnlyResetSparesBmc(b, s, force);
    BmcOnlyResetIs(b, s, force);
    PchOnlyResetIs(b, s, force);
    HeldNow(s, Bmc);
    HeldNow(s, Pch);
    var n := OperateOnBmcWorks(b, Hold(s, Bmc), force);
    OperateOnPchWorks(b, Hold(s, Pch), force);
    WorkClimbs(Hold(s, Bmc), OperateOn(b, Hold(s, Bmc), Bmc, force), Bmc, n);
    WorkClimbs(Hold(s, Pch), OperateOn(b, Hold(s, Pch), Pch, force), Pch, 0);
    BmcStarts(s, OperateOn(b, Hold(s, Bmc), Bmc, force));
    PchStarts(s, OperateOn(b, Hold(s, Pch), Pch, force));
    OneOfTwo(s, BmcOnlyReset(b, s, force), dev);
    OneOfTwo(s, PchOnlyReset(b, s, force), dev);
  }

  lemma WorkClimbs(t: State, x: State, dev: Dev, n: nat)
    requires Works(t, x, dev, n)
    ensures Climbs(t, x, dev)
  {
    hide Adds, Leveled, Count, DataKept;
  }

  lemma BmcStarts(s: State, x: State)
    ensures Climbs(Hold(s, Bmc), x, Bmc) ==> Climbs(s, x, Bmc) && Climbs(s, EnterT0BmcOnly(x), Bmc)
  {
  }

  lemma PchStarts(s: State, x: State)
    ensures Climbs(Hold(s, Pch), x, Pch) ==> Climbs(s, x, Pch) && Climbs(s, BootPch(x), Pch)
  {
  }

  lemma OneOfTwo(s: State, r: State, dev: Dev)
    ensures r.pch == s.pch && Climbs(s, r, Bmc) ==> Climbs(s, r, dev)
    ensures r.bmc == s.bmc && Climbs(s, r, Pch) ==> Climbs(s, r, dev)
  {
  }

  lemma TriggerClimbs(b: Board, s: State, which: Dev, e: Pins, dev: Dev)
    requires Sized(b, s) && Safe(b, s) && s.mode == Running
    ensures Climbs(s, TriggerWdt(b, s, which, e), dev)
  {
    var side := Of(s, which);
    var t := Put(s, which, side.(flags := CLEAR.(requireWdt := true)));
    assert Sized(b, t) && Climbs(s, t, dev) && t.mode == Running;
    assert TriggerWdt(b, s, which, e) == if side.level & 0x1C != 0 then PlatformReset(b, t, e) else s.(enabled := s.enabled - Timers(which));
    hide Sized, Leveled, Safe, PlatformReset;
    if side.level & 0x1C != 0 {
      if Leveled(side) { LevelBits(side); }
      RequestKeeps(b, s, t, which);
      SafeFacts(b, t);
      ResetClimbs(b, t, e, dev);
    }
  }

  lemma BmcWatchdogClimbs(b: Board, s: State, expired: bool, chk: Checkpoint, e: Pins, dev: Dev)
    requires Sized(b, s) && Safe(b, s) && s.mode == Running && !Completes(s, PollBmcTimer(expired, chk), dev)
    ensures Climbs(s, BmcWatchdog(b, s, expired, chk, e), dev)
  {
    TriggerClimbs(b, s, Bmc, e, dev);
    hide Sized, Safe, TriggerWdt;
  }

  lemma MeWatchdogClimbs(b: Board, s: State, expired: bool, ready: bool, e: Pins, dev: Dev)
    requires Sized(b, s) && Safe(b, s) && s.mode == Running && !Completes(s, PollMeTimer(expired, ready), dev)
    ensures Climbs(s, MeWatchdog(b, s, expired, ready, e), dev)
  {
    TriggerClimbs(b, s, Pch, e, dev);
    hide Sized, Safe, TriggerWdt;
  }

  lemma BiosProgressClimbs(s: State, bios: Checkpoint, dev: Dev)
    requires dev == Bmc || !(bios.Complete? && Ibb in s.booted && Me in s.booted)
    ensures Climbs(s, BiosProgress(s, bios), dev) && BiosProgress(s, bios).mode == s.mode
  {
  }

  lemma AcmBiosClimbs(b: Board, s: State, expired: bool, bios: Checkpoint, acm: Checkpoint, e: Pins, dev: Dev)
    requires Sized(b, s) && Safe(b, s) && s.mode == Running && !Completes(s, PollAcmBiosTimer(expired, bios, acm), dev)
    ensures Climbs(s, AcmBiosWatchdog(b, s, expired, bios, acm, e), dev)
  {
    if AcmBiosTimer in s.enabled && AcmBiosTimer in s.armed {
      BiosProgressClimbs(s, bios, dev);
      BiosProgressKeeps(b, s, bios);
      BiosProgressFits(b, s, bios);
      TriggerClimbs(b, BiosProgress(s, bios), Pch, e, dev);
    }
    hide Sized, Safe, TriggerWdt, BiosProgress;
  }

  lemma PchIntentClimbs(b: Board, s: State, e: Pins, dev: Dev)
    requires Sized(b, s) && Safe(b, s) && s.mode == Running
    ensures Climbs(s, PchIntent(b, s, e), dev)
  {
    hide Sized, Safe, Sound, PlatformReset, PchOnlyReset, Taken, PchRefused, Intent.Any;
    TakenKeeps(b, s, Pch, true);
    TakenClimbs(s, Pch, dev);
    var t := if s.pch.flags.recoveryFailed && s.pch.intent.pchRecovery then Taken(s, Pch, true) else s;
    SafeFacts(b, t);
    AloneClimbs(b, t, e.forcePch, dev);
    ResetClimbs(b, t, e, dev);
  }

  lemma BmcIntentClimbs(b: Board, s: State, e: Pins, dev: Dev)
    requires Sized(b, s) && Safe(b, s) && s.mode == Running
    ensures Climbs(s, BmcIntent(b, s, e), dev)
  {
    hide Sized, Safe, Sound, PlatformReset, BmcOnlyReset, Taken, BmcRefused, Intent.Any, Intent.PchFw, Intent.Cpld;
    TakenKeeps(b, s, Bmc, true);
    var t := if s.bmc.flags.recoveryFailed && s.bmc.intent.bmcRecovery then Taken(s, Bmc, true) else s;
    TakenClimbs(s, Bmc, dev);
    TakenClimbs(t, Bmc, dev);
    SafeFacts(b, t);
    AloneClimbs(b, t, e.forceBmc, dev);
    ResetClimbs(b, t, e, dev);
  }

  lemma TakenClimbs(s: State, which: Dev, dev: Dev)
    ensures Of(Taken(s, which, true), dev).recoveries == Of(Taken(s, which, false), dev).recoveries == Of(s, dev).recoveries
  {
  }

  lemma PostUpdateClimbs(b: Board, s: State, e: Pins, dev: Dev)
    requires Sized(b, s) && Safe(b, s) && s.mode == Running
    ensures Climbs(s, PostUpdate(b, s, e), dev)
  {
    SafeFacts(b, s);
    var t := if s.cpldPending then s.(bmc := s.bmc.(flags := s.bmc.flags.(readyCpld := true))) else s;
    assert Sized(b, t) && t.mode == Running && Climbs(s, t, dev);
    PromotionDue(b, s, t);
    hide Sized, Safe, Sound, PlatformReset;
    ResetClimbs(b, t, e, dev);
  }

  lemma SeenClimbs(b: Board, s: State, counting: bool, seen: bool, e: Pins, dev: Dev)
    requires Sized(b, s) && s.mode == Running
    ensures Climbs(s, PlatformResetSeen(s, counting), dev) && Climbs(s, BmcReset(b, s, seen, e), dev) && Climbs(s, s, dev)
  {
    AloneClimbs(b, s, e.forceBmc, dev);
    hide Sized, BmcOnlyReset;
  }

  lemma PollClimbs(b: Board, s: State, i: Input, e: Pins, dev: Dev)
    requires Sized(b, s) && Safe(b, s) && s.mode == Running && !Completes(s, i, dev)
    ensures Climbs(s, Poll(b, s, i, e), dev)
  {
    hide *;
    PollIs(b, s, i, e);
    SeenClimbs(b, s, true, true, e, dev);
    match i
    case PollPlatformReset(counting) => SeenClimbs(b, s, counting, true, e, dev);
    case PollBmcTimer(expired, chk) => BmcWatchdogClimbs(b, s, expired, chk, e, dev);
    case PollMeTimer(expired, ready) => MeWatchdogClimbs(b, s, expired, ready, e, dev);
    case PollAcmBiosTimer(expired, bios, acm) => AcmBiosClimbs(b, s, expired, bios, acm, e, dev);
    case PollBmcIntent => BmcIntentClimbs(b, s, e, dev);
    case PollPchIntent => PchIntentClimbs(b, s, e, dev);
    case PollBmcReset(seen) => SeenClimbs(b, s, true, seen, e, dev);
    case PollPostUpdate => PostUpdateClimbs(b, s, e, dev);
    case _ =>
  }

  // Nothing but a completed boot or a power cycle lets a recovery level start over
  lemma StepClimbs(b: Board, s: State, i: Input, e: Pins, dev: Dev)
    requires Sized(b, s) && Safe(b, s) && !i.PowerUp? && !Completes(s, i, dev)
    ensures Climbs(s, Step(b, s, i, e), dev)
  {
    StepIs(b, s, i, e);
    assert !SameParts(s, i);
    if s.mode == Running {
      PollClimbs(b, s, i, e, dev);
    }
    hide Sized, Safe, Step, Poll, PlatformReset, PoweredUp, Completes;
  }

  // Over these inputs the component does not complete a boot, and power stays on
  predicate NeverBoots(b: Board, s: State, inputs: seq<(Input, Pins)>, dev: Dev)
    requires Sized(b, s)
    decreases |inputs|
  {
    inputs == [] || (!inputs[0].0.PowerUp? && !Completes(s, inputs[0].0, dev)
                     && NeverBoots(b, Step(b, s, inputs[0].0, inputs[0].1), inputs[1..], dev))
  }

  lemma {:induction false} RunClimbs(b: Board, s: State, inputs: seq<(Input, Pins)>, dev: Dev)
    requires Sized(b, s) && Safe(b, s) && NeverBoots(b, s, inputs, dev)
    ensures Climbs(s, RunAll(b, s, inputs), dev)
    decreases |inputs|
  {
    hide Sized, Safe, Step, Completes;
    if inputs != [] {
      var t := Step(b, s, inputs[0].0, inputs[0].1);
      StepKeeps(b, s, inputs[0].0, inputs[0].1);
      StepClimbs(b, s, inputs[0].0, inputs[0].1, dev);
      RunClimbs(b, t, inputs[1..], dev);
    }
  }

  // A component that does not complete a boot is not recovered for ever: over any part of any run, however
  // many resets and updates it holds, its recoveries only add up, to three at most, and after the third none
  // is requested again
  lemma RecoveriesRunOut(b: Board, s: State, before: seq<(Input, Pins)>, inputs: seq<(Input, Pins)>, dev: Dev)
    requires Sized(b, s) && Initial(s) && NeverBoots(b, RunAll(b, s, before), inputs, dev)
    ensures var t := RunAll(b, s, before); var from, to := Of(t, dev), Of(RunAll(b, t, inputs), dev);
            from.recoveries <= to.recoveries <= 3 && (from.recoveries == 3 ==> !to.flags.requireWdt && to.level & 0x1C == 0)
  {
    InitialSafe(b, s);
    RunKeeps(b, s, before);
    var t := RunAll(b, s, before);
    RunKeeps(b, t, inputs);
    RunClimbs(b, t, inputs, dev);
    LevelsOf(b, RunAll(b, t, inputs), dev);
    NothingRequested(b, RunAll(b, t, inputs), dev);
    hide Sized, Initial, RunAll, Safe, NeverBoots;
  }

  lemma NothingRequested(b: Board, s: State, dev: Dev)
    requires Safe(b, s)
    ensures Of(s, dev).flags.requireWdt ==> Of(s, dev).recoveries < 3
  {
    assert Leveled(Of(s, dev));
    hide GoodLog, LevelMask;
  }

  // ---------------------------------------------------------------- intents that wait

  // An intent that is to wait for the next platform reset is left alone until one is seen; from then on it
  // counts with all its other bits
  lemma DeferredIntentWaits(b: Board, s: State, counting: bool, e: Pins)
    requires Sized(b, s)
    ensures s.bmc.intent.atReset ==> BmcIntent(b, s, e) == s
    ensures s.pch.intent.atReset ==> PchIntent(b, s, e) == s
    ensures var r := PlatformResetSeen(s, counting);
            && r.bmc == s.bmc.(intent := s.bmc.intent.(atReset := false)) && r.pch == s.pch.(intent := s.pch.intent.(atReset := false))
            && SameFlashes(s, r) && r.log == s.log
  {
    hide *;
    if s.bmc.intent.atReset {
      BmcWaits(b, s, e);
    }
    if s.pch.intent.atReset {
      PchWaits(b, s, e);
    }
    SeenClears(s, counting);
  }

  lemma SeenClears(s: State, counting: bool)
    ensures var r := PlatformResetSeen(s, counting);
            && r.bmc == s.bmc.(intent := s.bmc.intent.(atReset := false)) && r.pch == s.pch.(intent := s.pch.intent.(atReset := false))
            && SameFlashes(s, r) && r.log == s.log
  {
  }

  lemma BmcWaits(b: Board, s: State, e: Pins)
    requires Sized(b, s) && s.bmc.intent.atReset
    ensures BmcIntent(b, s, e) == s
  {
    hide Sized, PlatformReset, BmcOnlyReset, Taken, BmcRefused, Intent.Any, Intent.PchFw, Intent.Cpld;
  }

  lemma PchWaits(b: Board, s: State, e: Pins)
    requires Sized(b, s) && s.pch.intent.atReset
    ensures PchIntent(b, s, e) == s
  {
    hide Sized, PlatformReset, PchOnlyReset, Taken, PchRefused, Intent.Any, Intent.PchFw;
  }
}
