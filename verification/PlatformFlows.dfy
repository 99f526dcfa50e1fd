/**
 The platform state machine as the firmware runs it: two flashes and the provisioned data changed in
 place, and global state changed step by step, by the functions of fw/code/inc/tmin1_routines.h,
 tmin1_update.h, firmware_update.h, firmware_recovery.h, transition.h, t0_watchdog_handler.h,
 t0_update.h and t0_routines.h. Every method leaves the state that the function of the same purpose in
 Platform says, so what is proved of Platform's runs holds of the flashes.
 */
module PlatformFlows {
  import opened NorFlash
  import opened Ufm
  import opened Authentication
  import opened PfmValidation
  import opened CapsuleValidation
  import opened FlashValidation
  import opened Platform
  import opened PlatformSteps
  import opened PlatformSafety
  import opened FlashFlows
  import CpldPromotion
  import CpldUpdate

  // What is tracked of one flash beside its contents
  datatype Track = Track(flags: Flags, level: bv8, recoveries: nat, attempts: nat, intent: Intent, svn: nat, held: bool)

  const FRESH := Track(CLEAR, 4, 0, 0, NONE, 0, true)

  function SideOf(m: Mem, t: Track): Side { Side(m, t.flags, t.level, t.recoveries, t.attempts, t.intent, t.svn, t.held) }

  class Firmware {
    const b: Board
    const bmcFlash: SpiFlash
    const pchFlash: SpiFlash
    const page: array<Word>
    var bmc: Track
    var pch: Track
    var cpldPending: bool
    var booted: set<Part>
    var enabled: set<Timer>
    var armed: set<Timer>
    var provisioned: bool
    var mode: Mode
    ghost var log: seq<Event>

    ghost function Now(): State
      reads this, bmcFlash.mem, pchFlash.mem, page
    {
      State(SideOf(bmcFlash.mem[..], bmc), SideOf(pchFlash.mem[..], pch), page[..], cpldPending, booted, enabled, armed,
            provisioned, mode, log)
    }

    ghost predicate Valid()
      reads this, bmcFlash, bmcFlash.mem, pchFlash, pchFlash.mem, page
    {
      && bmcFlash.Valid() && pchFlash.Valid() && page.Length == 59
      && bmcFlash != pchFlash && bmcFlash.mem != pchFlash.mem && bmcFlash.mem != page && pchFlash.mem != page
      && Sized(b, Now())
    }

    function Flash(dev: Dev): SpiFlash { if dev == Bmc then bmcFlash else pchFlash }

    function Tracked(dev: Dev): Track
      reads this
    {
      if dev == Bmc then bmc else pch
    }

    constructor (b: Board, bmcFlash: SpiFlash, pchFlash: SpiFlash, page: array<Word>, cpldPending: bool, provisioned: bool)
      requires bmcFlash.Valid() && pchFlash.Valid() && page.Length == 59
      requires bmcFlash != pchFlash && bmcFlash.mem != pchFlash.mem && bmcFlash.mem != page && pchFlash.mem != page
      requires LaidOut(b.bmc, bmcFlash.mem.Length) && LaidOut(b.pch, pchFlash.mem.Length)
      requires b.StagedCpld() + CpldUpdate.AREA <= CpldUpdate.RECOVERY
      requires CpldUpdate.RECOVERY + CpldUpdate.AREA <= bmcFlash.mem.Length
      ensures this.b == b && this.bmcFlash == bmcFlash && this.pchFlash == pchFlash && this.page == page
      ensures Valid() && Initial(Now()) && this.cpldPending == cpldPending && this.provisioned == provisioned
    {
      this.b, this.bmcFlash, this.pchFlash, this.page := b, bmcFlash, pchFlash, page;
      this.cpldPending, this.provisioned := cpldPending, provisioned;
      bmc, pch := FRESH, FRESH;
      booted, enabled, armed := {}, {BmcTimer, MeTimer, AcmBiosTimer}, {};
      mode, log := Running, [];
    }

    // What the state is made of
    lemma Parts(dev: Dev)
      requires Valid()
      ensures var s := Now();
              && Sized(b, s) && s.page == page[..] && IsPage(s.page) && s.mode == mode && s.provisioned == provisioned
              && Of(s, dev) == SideOf(Flash(dev).mem[..], Tracked(dev)) && s.log == log
              && s.bmc.mem == bmcFlash.mem[..] && s.pch.mem == pchFlash.mem[..] && s.pch.svn == pch.svn && s.bmc.svn == bmc.svn
      ensures Flash(dev) == (if dev == Bmc then bmcFlash else pchFlash) && Flash(dev).Valid() && page.Length == 59 && page != Flash(dev).mem && bmcFlash.mem != pchFlash.mem
      ensures LaidOut(b.Map(dev), Flash(dev).mem.Length)
      ensures b.Map(dev).Staging() + 514 <= Flash(dev).mem.Length && b.Map(dev).Recovery() + 514 <= Flash(dev).mem.Length
      ensures b.StagedPch() + 514 <= bmcFlash.mem.Length && b.StagedCpld() + 514 <= bmcFlash.mem.Length
    {
    }

    method PutTrack(dev: Dev, t: Track)
      requires Valid()
      modifies this`bmc, this`pch
      ensures Valid() && Now() == Put(old(Now()), dev, SideOf(Flash(dev).mem[..], t))
    {
      if dev == Bmc {
        bmc := t;
      } else {
        pch := t;
      }
    }

    ghost method Note(e: Event)
      requires Valid()
      modifies this`log
      ensures Valid() && Now() == Noted(old(Now()), e)
    {
      log := log + [e];
    }

    method GoAstray()
      requires Valid()
      modifies this`mode
      ensures Valid() && Now() == Stray(old(Now()))
    {
      mode := Astray;
    }

    // ---------------------------------------------------------------- T-1 on one flash

    method RecoverRegions(dev: Dev)
      requires Valid() && CanRecoverAtLevel(b.Map(dev), Flash(dev).mem[..], Tracked(dev).level)
      modifies bmcFlash, bmcFlash.mem, pchFlash, pchFlash.mem
      ensures Valid() && Flash(dev).mem[..] == WdtImage(b.Map(dev), old(Flash(dev).mem[..]), Tracked(dev).level)
      ensures Now() == Put(old(Now()), dev, SideOf(Flash(dev).mem[..], Tracked(dev)))
    {
      hide CanRecoverAtLevel, WdtImage, LaidOut;
      RecoverFlash(Flash(dev), b.Map(dev), Tracked(dev).level);
    }

    method PerformWdtRecovery(dev: Dev)
      requires Valid()
      modifies this, bmcFlash, bmcFlash.mem, pchFlash, pchFlash.mem
      ensures Valid() && Now() == WdtRecovery(b, old(Now()), dev)
    {
      hide Valid, Now, Sized, ValidAt, CanRecoverAtLevel, WdtImage, LaidOut, Put, Of, Recovered;
      Parts(dev);
      var f, t, cfg := Flash(dev), Tracked(dev), b.Map(dev);
      ghost var s, m := Now(), f.mem[..];
      if t.flags.requireWdt {
        var authentic := IsSignatureValidAt(f, b.d, page[..], cfg.Recovery());
        if authentic {
          assert f.mem[..] == m;
          // The firmware does not look; past this point it would be lost
          if !CanRecoverAtLevel(cfg, f.mem[..], t.level) {
            GoAstray();
            return;
          }
          RecoverRegions(dev);
          RecoveredTrack(m, f.mem[..], t);
          PutTwice(s, dev, SideOf(f.mem[..], t), Recovered(SideOf(m, t), f.mem[..]));
          PutTrack(dev, t.(level := t.level << 1, recoveries := t.recoveries + 1, flags := t.flags.(requireWdt := false)));
          Note(Written(dev));
        }
      }
    }

    // The decision of check_capsule_before_update, with what it does to the provisioned data
    method DecideOnCapsule(dev: Dev, at: nat, i: Intent) returns (v: Verdict, failed: nat)
      requires Valid() && at + 514 <= Flash(dev).mem.Length
      modifies page
      ensures Valid() && IsPage(old(page[..])) && (v.CancelsKey? ==> v.id <= 127)
      ensures v == Check(b.d, old(page[..]), Flash(dev).mem[..], at, i.Word(), pch.svn, bmc.svn)
      ensures failed == Tracked(dev).attempts + if v.Refused? then 1 else 0
      ensures Now() == old(Now()).(page := PageAfter(old(page[..]), v))
    {
      hide Check, PageAfter, LaidOut, Intent.Word;
      v, failed := CheckCapsuleBeforeUpdate(Flash(dev), page, b.d, at, i.Word(), pch.svn, bmc.svn, Tracked(dev).attempts);
    }

    // A decommission capsule makes the device reconfigure, the provisioned data being erased
    method Reconfigure()
      requires Valid()
      modifies this`provisioned, this`mode, this`log
      ensures Valid()
      ensures Now() == Noted(Noted(old(Now()).(provisioned := false, mode := Reconfiguring), Decommissioned),
                             Reconfigured(Pending(old(Now()))))
    {
      hide LaidOut;
      ghost var pending := bmc.flags.pending || pch.flags.pending;
      provisioned, mode, log := false, Reconfiguring, log + [Decommissioned] + [Reconfigured(pending)];
    }

    // check_capsule_before_update with its effects
    method CheckBeforeUpdate(dev: Dev, at: nat, i: Intent) returns (v: Verdict)
      requires Valid() && at + 514 <= Flash(dev).mem.Length
      modifies this, page
      ensures Valid() && Sized(b, old(Now())) && at + 514 <= |Of(old(Now()), dev).mem| && (v.CancelsKey? ==> v.id <= 127)
      ensures v == Examine(b, old(Now()), dev, at, i) && Now() == Examined(b, old(Now()), dev, v)
    {
      hide Valid, Now, Sized, Check, KeyCancelled, LaidOut, Intent.Word;
      Parts(dev);
      var t := Tracked(dev);
      var failed: nat;
      v, failed := DecideOnCapsule(dev, at, i);
      if v == Refused {
        PutTrack(dev, t.(attempts := failed));
      } else if v == Decommissions {
        Reconfigure();
      }
    }

    method RewriteActive(dev: Dev, all: bool)
      requires Valid() && CanUpdate(b.Map(dev), Flash(dev).mem[..], all)
      modifies bmcFlash, bmcFlash.mem, pchFlash, pchFlash.mem
      ensures Valid() && Flash(dev).mem[..] == UpdatedImage(b.Map(dev), old(Flash(dev).mem[..]), all)
      ensures Now() == Put(old(Now()), dev, SideOf(Flash(dev).mem[..], Tracked(dev)))
    {
      hide CanUpdate, UpdatedImage, LaidOut;
      UpdateFlash(Flash(dev), b.Map(dev), all);
    }

    method EnableTimers(dev: Dev)
      requires Valid()
      modifies this`enabled
      ensures Valid() && Now() == old(Now()).(enabled := old(Now()).enabled + Timers(dev))
    {
      enabled := enabled + Timers(dev);
    }

    method PerformActiveFirmwareUpdate(dev: Dev, i: Intent)
      requires Valid()
      modifies this, bmcFlash, bmcFlash.mem, pchFlash, pchFlash.mem
      ensures Valid() && Now() == ActiveUpdate(b, old(Now()), dev, i)
    {
      hide Valid, Now, Sized, CanUpdate, UpdatedImage, Timers, LaidOut;
      Parts(dev);
      var f, t, cfg := Flash(dev), Tracked(dev), b.Map(dev);
      var isRecoveryUpdate := if dev == Bmc then i.bmcRecovery else i.pchRecovery;
      var all := false;
      if isRecoveryUpdate {
        all := true;
      } else if i.dynamic {
        all := true;
      }
      if !CanUpdate(cfg, f.mem[..], all) {
        GoAstray();
        return;
      }
      RewriteActive(dev, all);
      PutTrack(dev, t.(attempts := 0, flags := t.flags.(pending := t.flags.pending || isRecoveryUpdate)));
      EnableTimers(dev);
      Note(Written(dev));
    }

    method UpdateFirmware(dev: Dev, i: Intent)
      requires Valid()
      modifies this, bmcFlash, bmcFlash.mem, pchFlash, pchFlash.mem, page
      ensures Valid() && Now() == FirmwareUpdate(b, old(Now()), dev, i)
    {
      hide Valid, Now, Sized, Examine, ActiveUpdate, Intent.OnlyBmcFw, Intent.OnlyPchFw;
      Parts(dev);
      var v := CheckBeforeUpdate(dev, b.Map(dev).Staging(), if dev == Bmc then i.OnlyBmcFw() else i.OnlyPchFw());
      if v == Proceeds {
        PerformActiveFirmwareUpdate(dev, i);
      }
    }

    method TriggerCpldUpdate(recovery: bool)
      requires Valid()
      modifies this
      ensures Valid() && Now() == TriggerCpld(old(Now()), recovery)
    {
      hide LaidOut;
      if recovery {
        cpldPending := true;
      }
      ghost var pending := bmc.flags.pending || pch.flags.pending;
      mode, log := Reconfiguring, log + [Reconfigured(pending)];
    }

    method WriteIntent(dev: Dev, i: Intent)
      requires Valid()
      modifies this`bmc, this`pch
      ensures Valid() && Now() == Put(old(Now()), dev, Of(old(Now()), dev).(intent := i))
    {
      hide LaidOut;
      PutTrack(dev, Tracked(dev).(intent := i));
    }

    method ActOnCpldBits(i: Intent)
      requires Valid()
      modifies this, page
      ensures Valid() && Now() == ActOnCpldIntent(b, old(Now()), i)
    {
      hide Valid, Now, Sized, Check, LaidOut, TriggerCpld, Intent.OnlyCpld, Intent.PchFw;
      Parts(Bmc);
      Pendings();
      if pch.flags.pending || bmc.flags.pending || pch.intent.PchFw() {
        WriteIntent(Bmc, i.OnlyCpld());
      } else {
        Note(CpldExamined);
        var v := CheckBeforeUpdate(Bmc, b.StagedCpld(), i.OnlyCpld());
        if v == Proceeds {
          TriggerCpldUpdate(i.cpldRecovery);
        }
      }
    }

    // What is tracked of each flash
    lemma Pendings()
      ensures Pending(Now()) <==> pch.flags.pending || bmc.flags.pending
      ensures Now().pch.intent == pch.intent && Now().bmc.intent == bmc.intent
      ensures Now().pch == SideOf(pchFlash.mem[..], pch) && Now().bmc == SideOf(bmcFlash.mem[..], bmc)
      ensures Flash(Bmc) == bmcFlash && Flash(Pch) == pchFlash && Tracked(Bmc) == bmc && Tracked(Pch) == pch
    {
    }

    method ActOnBmcUpdateIntent()
      requires Valid()
      modifies this, bmcFlash, bmcFlash.mem, pchFlash, pchFlash.mem, page
      ensures Valid() && Now() == ActOnBmc(b, old(Now()))
    {
      hide Valid, Now, Sized, FirmwareUpdate, ActOnCpldIntent, Intent.BmcFw, Intent.Cpld;
      Parts(Bmc);
      Pendings();
      var updateIntent := bmc.intent;
      WriteIntent(Bmc, NONE);
      if updateIntent.BmcFw() {
        UpdateFirmware(Bmc, updateIntent);
      }
      Parts(Bmc);
      if mode == Running && updateIntent.Cpld() {
        ActOnCpldBits(updateIntent);
      }
    }

    method ActOnPchUpdateIntent()
      requires Valid()
      modifies this, bmcFlash, bmcFlash.mem, pchFlash, pchFlash.mem, page
      ensures Valid() && Now() == ActOnPch(b, old(Now()))
    {
      hide Valid, Now, Sized, FirmwareUpdate, Intent.PchFw;
      Parts(Pch);
      Pendings();
      var updateIntent := pch.intent;
      WriteIntent(Pch, NONE);
      if updateIntent.PchFw() {
        UpdateFirmware(Pch, updateIntent);
      }
    }

    // authenticate_and_recover_spi_flash on the flash and the provisioned data
    method RepairFlash(dev: Dev, force: bool) returns (o: bool, recoveryFailed: bool, allFailed: bool)
      requires Valid() && IsPage(page[..]) && LaidOut(b.Map(dev), Flash(dev).mem.Length)
      requires Workable(b.d, page[..], Flash(dev).mem[..], b.Map(dev), force)
      modifies bmcFlash, bmcFlash.mem, pchFlash, pchFlash.mem, page
      ensures Valid()
      ensures Outcome(Flash(dev).mem[..], page[..], o, recoveryFailed, allFailed)
           == Authenticate(b.d, old(page[..]), old(Flash(dev).mem[..]), b.Map(dev), force)
      ensures Now() == Put(old(Now()).(page := page[..]), dev, SideOf(Flash(dev).mem[..], Tracked(dev)))
    {
      hide Workable, Authenticate, LaidOut;
      o, recoveryFailed, allFailed := AuthenticateAndRecover(Flash(dev), page, b.d, b.Map(dev), force);
    }

    method AuthenticateAndRecoverSpiFlash(dev: Dev, force: bool)
      requires Valid()
      modifies this, bmcFlash, bmcFlash.mem, pchFlash, pchFlash.mem, page
      ensures Valid() && Now() == Authenticated(b, old(Now()), dev, force)
    {
      hide Valid, Now, Sized, Workable, Authenticate, PfmSvn, LaidOut, Put, Of;
      Parts(dev);
      ghost var s := Now();
      var f, t, cfg := Flash(dev), Tracked(dev), b.Map(dev);
      ghost var m := f.mem[..];
      if !Workable(b.d, page[..], f.mem[..], cfg, force) {
        GoAstray();
        return;
      }
      var active, recoveryFailed, allFailed := RepairFlash(dev, force);
      var svn := ReadRecoverySvn(f, cfg.Recovery());
      var found := t.(svn := svn, flags := t.flags.(recoveryFailed := recoveryFailed, allFailed := allFailed));
      PutTwice(s.(page := page[..]), dev, SideOf(f.mem[..], t), SideOf(f.mem[..], found));
      PutTrack(dev, found);
      Note(Written(dev));
      if active {
        Note(Verified(dev, s.page, m, force));
      }
    }

    method PerformTmin1OperationsFor(dev: Dev, force: bool)
      requires Valid()
      modifies this, bmcFlash, bmcFlash.mem, pchFlash, pchFlash.mem, page
      ensures Valid() && Now() == OperateOn(b, old(Now()), dev, force)
    {
      hide Valid, Now, Sized, Quieted, WdtRecovery, ActOnBmc, ActOnPch, Authenticated;
      Parts(dev);
      Quiet(dev);
      PerformWdtRecovery(dev);
      Parts(dev);
      if mode == Running {
        if dev == Bmc {
          ActOnBmcUpdateIntent();
        } else {
          ActOnPchUpdateIntent();
        }
      }
      Parts(dev);
      if mode == Running {
        AuthenticateAndRecoverSpiFlash(dev, force);
      }
    }

    method Quiet(dev: Dev)
      requires Valid()
      modifies this`booted, this`armed
      ensures Valid() && Now() == Quieted(old(Now()), dev)
    {
      hide LaidOut;
      booted, armed := booted - PartsOf(dev), armed - Timers(dev);
    }

    // ---------------------------------------------------------------- T-1 on both flashes

    method CopyToPch()
      requires Valid() && CanHandOver(pchFlash.mem[..], bmcFlash.mem[..], b.StagedPch(), b.pch.staging)
      modifies pchFlash, pchFlash.mem
      ensures Valid() && CanHandOver(old(pchFlash.mem[..]), bmcFlash.mem[..], b.StagedPch(), b.pch.staging)
      ensures pchFlash.mem[..] == CopiedTo(old(pchFlash.mem[..]), bmcFlash.mem[..], b.StagedPch(), b.pch.staging)
      ensures Now() == Put(old(Now()), Pch, SideOf(pchFlash.mem[..], pch))
    {
      hide CanHandOver, CopiedTo, LaidOut;
      HandOver(pchFlash, bmcFlash, b.StagedPch(), b.pch.staging);
    }

    method PrepForOobPchFwUpdate()
      requires Valid()
      modifies this, bmcFlash, bmcFlash.mem, pchFlash, pchFlash.mem, page
      ensures Valid() && Now() == PrepForOob(b, old(Now()))
    {
      hide Valid, Now, Sized, Examine, CanHandOver, CopiedTo, LaidOut, Intent.PchFw, Intent.OnlyPchFw, Intent.Union;
      Parts(Bmc);
      Parts(Pch);
      Pendings();
      ghost var m := pchFlash.mem[..];
      var i, t := bmc.intent, pch;
      if i.PchFw() {
        var v := CheckBeforeUpdate(Bmc, b.StagedPch(), i.OnlyPchFw());
        if v == Proceeds {
          Parts(Bmc);
          Pendings();
          SameTrack(pchFlash.mem[..], pch, m, t);
          if !CanHandOver(pchFlash.mem[..], bmcFlash.mem[..], b.StagedPch(), b.pch.staging) {
            GoAstray();
            return;
          }
          CopyToPch();
          if i.pchRecovery && t.flags.recoveryFailed {
            PutTrack(Pch, t.(flags := t.flags.(pending := true)));
          } else {
            PutTrack(Pch, t.(intent := i.OnlyPchFw().(dynamic := i.dynamic).Union(t.intent)));
          }
          Note(Written(Pch));
        }
      }
    }

    method PromoteCpldArea()
      requires Valid()
      modifies bmcFlash, bmcFlash.mem, page
      ensures Valid() && Fits(old(Now()))
      ensures bmcFlash.mem[..] == CpldPromotion.CopiedOver(old(bmcFlash.mem[..]), b.StagedCpld())
      ensures page[..] == SvnWritten(old(page[..]), CpldPolicy, CpldSvn(old(bmcFlash.mem[..]), b.StagedCpld()))
      ensures Now() == Put(old(Now()).(page := page[..]), Bmc, SideOf(bmcFlash.mem[..], bmc))
    {
      hide CpldPromotion.CopiedOver, SvnWritten, CpldSvn, LaidOut;
      PromoteCpldCapsule(bmcFlash, page, b.StagedCpld());
    }

    ghost predicate Fits(s: State) {
      && IsPage(s.page) && b.StagedCpld() + 256 < |s.bmc.mem|
      && b.StagedCpld() + CpldUpdate.AREA <= CpldUpdate.RECOVERY && CpldUpdate.RECOVERY + CpldUpdate.AREA <= |s.bmc.mem|
    }

    method ClearCpldPending()
      requires Valid()
      modifies this`cpldPending
      ensures Valid() && Now() == old(Now()).(cpldPending := false)
    {
      hide LaidOut;
      cpldPending := false;
    }

    method PerformCpldRecoveryUpdate()
      requires Valid()
      modifies this, bmcFlash, bmcFlash.mem, page
      ensures Valid() && Now() == PromoteCpld(b, old(Now()))
    {
      hide Valid, Now, Sized, CpldPromotion.CopiedOver, SvnWritten, CpldSvn, LaidOut;
      Parts(Bmc);
      Pendings();
      PromoteCpldArea();
      ClearCpldPending();
      PutTrack(Bmc, bmc.(flags := bmc.flags.(readyCpld := false)));
      Note(Written(Bmc));
      Note(CpldPromoted);
    }

    // perform_firmware_recovery_update on the flash and the provisioned data
    method PromoteFlash(dev: Dev)
      requires Valid() && IsPage(page[..]) && HoldsPayload(Flash(dev).mem[..], b.Map(dev).Staging())
      requires CopyFits(Flash(dev).mem[..], b.Map(dev))
      modifies bmcFlash, bmcFlash.mem, pchFlash, pchFlash.mem, page
      ensures Valid() && b.Map(dev).Staging() + 513 < Flash(dev).mem.Length
      ensures Flash(dev).mem[..] == Promoted(old(Flash(dev).mem[..]), b.Map(dev))
      ensures page[..] == SvnWritten(old(page[..]), b.Map(dev).policy, PfmSvn(Flash(dev).mem[..], b.Map(dev).Staging()))
      ensures Now() == Put(old(Now()).(page := page[..]), dev, SideOf(Flash(dev).mem[..], Tracked(dev)))
    {
      hide HoldsPayload, CopyFits, Promoted, SvnWritten, PfmSvn, PromotionTrace;
      PerformFirmwareRecoveryUpdate(Flash(dev), page, b.Map(dev));
    }

    // The first half of process_pending_recovery_update
    method PromotePending(dev: Dev)
      requires Valid()
      modifies this, bmcFlash, bmcFlash.mem, pchFlash, pchFlash.mem, page
      ensures Valid() && Now() == PendingUpdate(b, old(Now()), dev)
    {
      hide Valid, Now, Sized, Promotable, HoldsPayload, CopyFits, Promoted, SvnWritten, PfmSvn, LaidOut;
      Parts(dev);
      var f, t, cfg := Flash(dev), Tracked(dev), b.Map(dev);
      if t.flags.pending {
        PromotableHolds(b.d, page[..], f.mem[..], cfg);
        var ok := CheckCapsuleBeforeFwRecoveryUpdate(f, page[..], b.d, cfg, false);
        if ok {
          if !CopyFits(f.mem[..], cfg) {
            GoAstray();
            return;
          }
          PromoteFlash(dev);
          PutTrack(dev, t.(flags := t.flags.(pending := false)));
          Note(Written(dev));
        } else {
          PutTrack(dev, t.(attempts := t.attempts + 1, flags := t.flags.(pending := false)));
        }
      }
    }

    method ProcessPendingRecoveryUpdate(dev: Dev)
      requires Valid()
      modifies this, bmcFlash, bmcFlash.mem, pchFlash, pchFlash.mem, page
      ensures Valid() && Now() == ProcessPending(b, old(Now()), dev)
    {
      hide Valid, Now, Sized, PendingUpdate, PromoteCpld;
      Parts(dev);
      PromotePending(dev);
      Parts(dev);
      TrackedFlags(dev);
      if mode == Running && Tracked(dev).flags.readyCpld {
        PerformCpldRecoveryUpdate();
      }
    }

    lemma TrackedFlags(dev: Dev)
      ensures Of(Now(), dev).flags == Tracked(dev).flags && Of(Now(), dev).level == Tracked(dev).level
      ensures Of(Now(), dev).attempts == Tracked(dev).attempts && Of(Now(), dev).intent == Tracked(dev).intent
      ensures Of(Now(), dev).held == Tracked(dev).held
    {
    }

    method SetMode(m: Mode)
      requires Valid()
      modifies this`mode
      ensures Valid() && Now() == old(Now()).(mode := m)
    {
      hide LaidOut;
      mode := m;
    }

    method PerformTmin1Operations(e: Pins)
      requires Valid()
      modifies this, bmcFlash, bmcFlash.mem, pchFlash, pchFlash.mem, page
      ensures Valid() && Now() == Tmin1(b, old(Now()), e)
    {
      hide Valid, Now, Sized, PrepForOob, ProcessPending, OperateOn;
      Parts(Bmc);
      if !e.pitPasses {
        SetMode(Lockdown);
        return;
      }
      PrepForOobPchFwUpdate();
      Parts(Bmc);
      if mode == Running {
        ProcessPendingRecoveryUpdate(Bmc);
        Parts(Bmc);
      }
      if mode == Running {
        ProcessPendingRecoveryUpdate(Pch);
        Parts(Bmc);
      }
      if mode == Running {
        PerformTmin1OperationsFor(Bmc, e.forceBmc);
        Parts(Bmc);
        if mode == Running {
          PerformTmin1OperationsFor(Pch, e.forcePch);
        }
      }
    }

    // ---------------------------------------------------------------- leaving T-1

    method ReleaseDevice(dev: Dev)
      requires Valid()
      modifies this
      ensures Valid() && Now() == Release(old(Now()), dev)
    {
      hide Valid, Now, Sized, SameFlashes;
      Parts(dev);
      ghost var m := Flash(dev).mem[..];
      PutTrack(dev, Tracked(dev).(held := false));
      Note(Released(dev, m));
    }

    method HoldDevice(dev: Dev)
      requires Valid()
      modifies this
      ensures Valid() && Now() == Hold(old(Now()), dev)
    {
      hide Valid, Now, Sized, SameFlashes;
      Parts(dev);
      PutTrack(dev, Tracked(dev).(held := true));
      Note(Entered(dev, provisioned));
    }

    method ArmTimer(t: Timer)
      requires Valid()
      modifies this`armed
      ensures Valid() && Now() == old(Now()).(armed := old(Now()).armed + {t})
    {
      hide LaidOut;
      armed := armed + {t};
    }

    // What is seen of both flashes
    lemma BothFlags()
      ensures Now().bmc.flags == bmc.flags && Now().pch.flags == pch.flags && Now().provisioned == provisioned && Now().mode == mode
      ensures Now().booted == booted && Now().enabled == enabled && Now().armed == armed && Now().cpldPending == cpldPending
    {
    }

    method Tmin1BootBmc()
      requires Valid()
      modifies this
      ensures Valid() && Now() == BootBmc(old(Now()))
    {
      hide Valid, Now, Sized, SameFlashes;
      BothFlags();
      if !bmc.flags.allFailed {
        ReleaseDevice(Bmc);
        BothFlags();
        if provisioned && !bmc.flags.recoveryFailed && !pch.flags.allFailed {
          ArmTimer(BmcTimer);
        }
      }
    }

    method Tmin1BootPch()
      requires Valid()
      modifies this
      ensures Valid() && Now() == BootPch(old(Now()))
    {
      hide Valid, Now, Sized, SameFlashes;
      BothFlags();
      if !(pch.flags.allFailed || bmc.flags.allFailed) {
        ReleaseDevice(Pch);
        BothFlags();
        if provisioned && !pch.flags.recoveryFailed {
          ArmTimer(MeTimer);
        }
      }
    }

    method PerformEntryToT0()
      requires Valid()
      modifies this
      ensures Valid() && Now() == EnterT0(old(Now()))
    {
      hide Valid, Now, Sized, BootBmc, BootPch, SameFlashes;
      BothFlags();
      if bmc.flags.allFailed && pch.flags.allFailed {
        SetMode(Lockdown);
        return;
      }
      Tmin1BootBmc();
      Tmin1BootPch();
    }

    method RestartBmcTimer()
      requires Valid()
      modifies this`booted, this`armed
      ensures Valid() && Now() == old(Now()).(booted := old(Now()).booted - {BmcPart}, armed := old(Now()).armed + {BmcTimer})
    {
      hide LaidOut;
      booted, armed := booted - {BmcPart}, armed + {BmcTimer};
    }

    method PerformEntryToT0BmcOnly()
      requires Valid()
      modifies this
      ensures Valid() && Now() == EnterT0BmcOnly(old(Now()))
    {
      hide Valid, Now, Sized, SameFlashes;
      BothFlags();
      if !bmc.flags.allFailed {
        ReleaseDevice(Bmc);
        BothFlags();
        if !pch.flags.allFailed {
          RestartBmcTimer();
        }
      }
    }

    method PerformPlatformReset(e: Pins)
      requires Valid()
      modifies this, bmcFlash, bmcFlash.mem, pchFlash, pchFlash.mem, page
      ensures Valid() && Now() == PlatformReset(b, old(Now()), e)
    {
      hide Valid, Now, Sized, Hold, Tmin1, EnterT0, SameFlashes;
      Parts(Bmc);
      HoldDevice(Bmc);
      HoldDevice(Pch);
      BothFlags();
      if provisioned {
        PerformTmin1Operations(e);
      }
      BothFlags();
      if mode == Running {
        PerformEntryToT0();
      }
    }

    method PerformBmcOnlyReset(e: Pins, force: bool)
      requires Valid()
      modifies this, bmcFlash, bmcFlash.mem, pchFlash, pchFlash.mem, page
      ensures Valid() && Now() == BmcOnlyReset(b, old(Now()), force)
    {
      hide Valid, Now, Sized, Hold, OperateOn, EnterT0BmcOnly, SameFlashes;
      Parts(Bmc);
      HoldDevice(Bmc);
      PerformTmin1OperationsFor(Bmc, force);
      BothFlags();
      if mode == Running {
        PerformEntryToT0BmcOnly();
      }
    }

    method PerformPchOnlyReset(e: Pins, force: bool)
      requires Valid()
      modifies this, bmcFlash, bmcFlash.mem, pchFlash, pchFlash.mem, page
      ensures Valid() && Now() == PchOnlyReset(b, old(Now()), force)
    {
      hide Valid, Now, Sized, Hold, OperateOn, BootPch, SameFlashes;
      Parts(Bmc);
      HoldDevice(Pch);
      PerformTmin1OperationsFor(Pch, force);
      BothFlags();
      if mode == Running {
        Tmin1BootPch();
      }
    }

    // ---------------------------------------------------------------- T0

    method DisableTimers(dev: Dev)
      requires Valid()
      modifies this`enabled
      ensures Valid() && Now() == old(Now()).(enabled := old(Now()).enabled - Timers(dev))
    {
      hide LaidOut;
      enabled := enabled - Timers(dev);
    }

    method SetProgress(parts: set<Part>, timers: set<Timer>)
      requires Valid()
      modifies this`booted, this`armed
      ensures Valid() && Now() == old(Now()).(booted := parts, armed := timers)
    {
      hide LaidOut;
      booted, armed := parts, timers;
    }

    method TriggerWdtRecovery(dev: Dev, e: Pins)
      requires Valid()
      modifies this, bmcFlash, bmcFlash.mem, pchFlash, pchFlash.mem, page
      ensures Valid() && Now() == TriggerWdt(b, old(Now()), dev, e)
    {
      hide Valid, Now, Sized, PlatformReset, Timers;
      Parts(dev);
      var t := Tracked(dev);
      if t.level & 0x1C != 0 {
        PutTrack(dev, t.(flags := CLEAR.(requireWdt := true)));
        PerformPlatformReset(e);
      } else {
        DisableTimers(dev);
      }
    }

    method ResetFwRecoveryLevel(dev: Dev)
      requires Valid()
      modifies this`bmc, this`pch
      ensures Valid() && Now() == ResetLevel(old(Now()), dev)
    {
      hide LaidOut;
      PutTrack(dev, Tracked(dev).(level := 4, recoveries := 0));
    }

    method BmcWatchdogTimerHandler(expired: bool, chk: Checkpoint, e: Pins)
      requires Valid()
      modifies this, bmcFlash, bmcFlash.mem, pchFlash, pchFlash.mem, page
      ensures Valid() && Now() == BmcWatchdog(b, old(Now()), expired, chk, e)
    {
      hide Valid, Now, Sized, TriggerWdt;
      Parts(Bmc);
      BothFlags();
      if BmcTimer in enabled && BmcTimer in armed {
        if expired {
          TriggerWdtRecovery(Bmc, e);
        } else if chk.Complete? {
          SetProgress(booted + {BmcPart}, armed - {BmcTimer});
          ResetFwRecoveryLevel(Bmc);
        }
      }
    }

    method MeWatchdogTimerHandler(expired: bool, ready: bool, e: Pins)
      requires Valid()
      modifies this, bmcFlash, bmcFlash.mem, pchFlash, pchFlash.mem, page
      ensures Valid() && Now() == MeWatchdog(b, old(Now()), expired, ready, e)
    {
      hide Valid, Now, Sized, TriggerWdt;
      Parts(Pch);
      BothFlags();
      if MeTimer in enabled && MeTimer in armed {
        if expired {
          TriggerWdtRecovery(Pch, e);
        } else if ready {
          SetProgress(booted + {Me}, armed - {MeTimer});
          BothFlags();
          if Obb in booted {
            ResetFwRecoveryLevel(Pch);
          }
        }
      }
    }

    method TrackBiosProgress(chk: Checkpoint)
      requires Valid()
      modifies this
      ensures Valid() && Now() == BiosProgress(old(Now()), chk)
    {
      hide Valid, Now, Sized, ResetLevel;
      BothFlags();
      if Ibb in booted {
        if chk.Complete? {
          SetProgress(booted + {Obb}, armed - {AcmBiosTimer});
          BothFlags();
          if Me in booted {
            ResetFwRecoveryLevel(Pch);
          }
        }
      } else if chk.Start? {
        SetProgress(booted + {Acm}, armed);
      } else if chk.Complete? {
        SetProgress(booted + {Ibb}, armed);
      }
    }

    method AcmBiosWatchdogTimerHandler(expired: bool, bios: Checkpoint, acm: Checkpoint, e: Pins)
      requires Valid()
      modifies this, bmcFlash, bmcFlash.mem, pchFlash, pchFlash.mem, page
      ensures Valid() && Now() == AcmBiosWatchdog(b, old(Now()), expired, bios, acm, e)
    {
      hide Valid, Now, Sized, TriggerWdt, BiosProgress;
      Parts(Pch);
      BothFlags();
      if AcmBiosTimer in enabled && AcmBiosTimer in armed {
        var ibbBooted := Ibb in booted;
        TrackBiosProgress(bios);
        BothFlags();
        var chk := bios;
        if !ibbBooted && Acm !in booted {
          chk := acm;
        }
        if expired || chk.AuthFail? {
          TriggerWdtRecovery(Pch, e);
        }
      }
    }

    method PlatformResetHandler(counting: bool)
      requires Valid()
      modifies this
      ensures Valid() && Now() == PlatformResetSeen(old(Now()), counting)
    {
      hide LaidOut;
      if !counting && !pch.flags.recoveryFailed {
        booted, armed := booted - {Acm, Ibb, Obb}, armed + {AcmBiosTimer};
      }
      pch := pch.(intent := pch.intent.(atReset := false));
      bmc := bmc.(intent := bmc.intent.(atReset := false));
    }

    method TakeIntent(dev: Dev, pending: bool)
      requires Valid()
      modifies this`bmc, this`pch
      ensures Valid() && Now() == Taken(old(Now()), dev, pending)
    {
      hide LaidOut;
      var t := Tracked(dev);
      if pending {
        t := t.(flags := t.flags.(pending := true));
      }
      PutTrack(dev, t.(intent := NONE));
    }

    method MbUpdateIntentHandlerForPch(e: Pins)
      requires Valid()
      modifies this, bmcFlash, bmcFlash.mem, pchFlash, pchFlash.mem, page
      ensures Valid() && Now() == PchIntent(b, old(Now()), e)
    {
      hide Valid, Now, Sized, PlatformReset, PchOnlyReset, Taken, Intent.Any, Intent.PchFw;
      Parts(Pch);
      Pendings();
      TrackedFlags(Pch);
      var i := pch.intent;
      if !i.Any() || i.atReset {
        return;
      }
      if !i.PchFw() || pch.attempts >= 3 {
        TakeIntent(Pch, false);
        return;
      }
      if pch.flags.recoveryFailed {
        if i.pchActive {
          TakeIntent(Pch, false);
          return;
        }
        if i.pchRecovery {
          TakeIntent(Pch, true);
        }
      }
      if i.pchActive {
        PerformPchOnlyReset(e, e.forcePch);
      } else {
        PerformPlatformReset(e);
      }
    }

    method MbUpdateIntentHandlerForBmc(e: Pins)
      requires Valid()
      modifies this, bmcFlash, bmcFlash.mem, pchFlash, pchFlash.mem, page
      ensures Valid() && Now() == BmcIntent(b, old(Now()), e)
    {
      hide Valid, Now, Sized, PlatformReset, BmcOnlyReset, Intent.Any, Intent.PchFw, Intent.BmcFw, Intent.Cpld;
      Parts(Bmc);
      Pendings();
      TrackedFlags(Bmc);
      BothFlags();
      var i := bmc.intent;
      if !i.Any() || i.atReset {
        return;
      }
      if !(i.BmcFw() || i.PchFw() || i.Cpld()) || bmc.attempts >= 3 {
        TakeIntent(Bmc, false);
        return;
      }
      if bmc.flags.recoveryFailed {
        if i.bmcActive {
          TakeIntent(Bmc, false);
          return;
        }
        if i.bmcRecovery {
          TakeIntent(Bmc, true);
        }
      }
      BothFlags();
      if pch.flags.recoveryFailed && i.pchActive {
        TakeIntent(Bmc, false);
        return;
      }
      if i.bmcRecovery || i.Cpld() || i.PchFw() {
        PerformPlatformReset(e);
      } else {
        PerformBmcOnlyReset(e, e.forceBmc);
      }
    }

    method BmcResetHandler(seen: bool, e: Pins)
      requires Valid()
      modifies this, bmcFlash, bmcFlash.mem, pchFlash, pchFlash.mem, page
      ensures Valid() && Now() == BmcReset(b, old(Now()), seen, e)
    {
      hide Valid, Now, Sized, BmcOnlyReset;
      Parts(Bmc);
      BothFlags();
      if BmcPart in booted && seen {
        PerformBmcOnlyReset(e, e.forceBmc);
      }
    }

    method PostUpdateRoutine(e: Pins)
      requires Valid()
      modifies this, bmcFlash, bmcFlash.mem, pchFlash, pchFlash.mem, page
      ensures Valid() && Now() == PostUpdate(b, old(Now()), e)
    {
      hide Valid, Now, Sized, PlatformReset;
      Parts(Bmc);
      BothFlags();
      Pendings();
      if booted == {BmcPart, Me, Acm, Ibb, Obb} {
        var panic := bmc.flags.pending || pch.flags.pending;
        if cpldPending {
          PutTrack(Bmc, bmc.(flags := bmc.flags.(readyCpld := true)));
          panic := true;
        }
        if panic {
          PerformPlatformReset(e);
        }
      }
    }

    // ---------------------------------------------------------------- the T0 loop

    method PollSource(i: Input, e: Pins)
      requires Valid()
      modifies this, bmcFlash, bmcFlash.mem, pchFlash, pchFlash.mem, page
      ensures Valid() && Now() == Poll(b, old(Now()), i, e)
    {
      hide *;
      Parts(Bmc);
      PollIs(b, Now(), i, e);
      match i
      case PollPlatformReset(counting) => PlatformResetHandler(counting);
      case PollBmcTimer(expired, chk) => BmcWatchdogTimerHandler(expired, chk, e);
      case PollMeTimer(expired, ready) => MeWatchdogTimerHandler(expired, ready, e);
      case PollAcmBiosTimer(expired, bios, acm) => AcmBiosWatchdogTimerHandler(expired, bios, acm, e);
      case PollBmcIntent => MbUpdateIntentHandlerForBmc(e);
      case PollPchIntent => MbUpdateIntentHandlerForPch(e);
      case PollBmcReset(seen) => BmcResetHandler(seen, e);
      case PollPostUpdate => PostUpdateRoutine(e);
      case _ =>
    }

    // A component writes its own flash
    method OwnerRewrites(dev: Dev, m: Mem)
      requires Valid() && |m| == Flash(dev).mem.Length
      modifies bmcFlash, bmcFlash.mem, pchFlash, pchFlash.mem
      ensures Valid() && Flash(dev).mem[..] == m && Now() == Put(old(Now()), dev, SideOf(m, Tracked(dev)))
    {
      hide LaidOut;
      Rewrite(Flash(dev), m);
    }

    method ReplaceData(data: Mem, locked: bool)
      requires Valid() && IsPage(data)
      modifies this`provisioned, page
      ensures Valid() && Now() == old(Now()).(page := data, provisioned := locked)
    {
      hide LaidOut;
      forall i | 0 <= i < 59 {
        page[i] := data[i];
      }
      assert page[..] == data;
      provisioned := locked;
    }

    // The device starts with whatever the flashes and the persistent words hold
    method StartAgain(i: Input)
      requires Valid() && SameParts(Now(), i)
      modifies this, bmcFlash, bmcFlash.mem, pchFlash, pchFlash.mem, page
      ensures Valid() && Sized(b, old(Now())) && Now() == PoweredUp(b, old(Now()), i)
    {
      hide Valid, Now, Sized, LaidOut;
      Parts(Bmc);
      Parts(Pch);
      ReplaceData(i.page, i.provisioned);
      StartFlash(Bmc, i.bmc);
      StartFlash(Pch, i.pch);
      ForgetAll(i.cpldPending);
    }

    method StartFlash(dev: Dev, m: Mem)
      requires Valid() && |m| == Flash(dev).mem.Length
      modifies this, bmcFlash, bmcFlash.mem, pchFlash, pchFlash.mem
      ensures Valid() && Now() == Put(old(Now()), dev, SideOf(m, FRESH))
    {
      hide *;
      Parts(dev);
      PutTwice(Now(), dev, SideOf(m, Tracked(dev)), SideOf(m, FRESH));
      OwnerRewrites(dev, m);
      PutTrack(dev, FRESH);
    }

    method ForgetAll(pending: bool)
      requires Valid()
      modifies this
      ensures Valid()
      ensures Now() == old(Now()).(cpldPending := pending, booted := {}, enabled := {BmcTimer, MeTimer, AcmBiosTimer}, armed := {},
                                   mode := Running)
    {
      hide LaidOut;
      cpldPending, booted, enabled, armed, mode := pending, {}, {BmcTimer, MeTimer, AcmBiosTimer}, {}, Running;
    }

    // The flashes and the words that outlast a power cycle fit this device
    method CanStart(i: Input) returns (ok: bool)
      requires Valid()
      ensures ok == SameParts(Now(), i)
    {
      ok := i.PowerUp? && |i.page| == 59 && |i.bmc| == bmcFlash.mem.Length && |i.pch| == pchFlash.mem.Length;
    }

    // What the components and the environment do between two polls, and power cycles
    method Meet(i: Input, e: Pins)
      requires Valid()
      modifies this, bmcFlash, bmcFlash.mem, pchFlash, pchFlash.mem, page
      ensures Valid() && Now() == Step(b, old(Now()), i, e)
    {
      hide Valid, Now, Sized, Poll, PlatformReset, PoweredUp;
      Parts(Bmc);
      Parts(Pch);
      BothFlags();
      StepIs(b, Now(), i, e);
      Pages59();
      var start := CanStart(i);
      if start {
        StartAgain(i);
        PerformPlatformReset(e);
      } else if mode == Running {
        if i.IntentWritten? {
          WriteIntent(i.dev, i.intent);
        } else if i.FlashWritten? {
          Parts(i.dev);
          if !Tracked(i.dev).held && |i.mem| == Flash(i.dev).mem.Length {
            OwnerRewrites(i.dev, i.mem);
            Note(Written(i.dev));
          }
        } else if i.DataProvisioned? {
          if IsPage(i.page) {
            ReplaceData(i.page, i.provisioned);
          }
        } else if provisioned {
          PollSource(i, e);
        }
      }
    }

    // pfr_main and the T0 loop over everything that happens. From the first power-up on, the flashes are
    // released only as the run says.
    method PerformT0Operations(inputs: seq<(Input, Pins)>)
      requires Valid()
      modifies this, bmcFlash, bmcFlash.mem, pchFlash, pchFlash.mem, page
      ensures Valid() && Sized(b, old(Now())) && Now() == RunAll(b, old(Now()), inputs)
      ensures Initial(old(Now())) ==> Safe(b, Now())
    {
      hide Valid, Now, Sized, Step, Safe, Initial;
      Parts(Bmc);
      ghost var s := Now();
      if Initial(s) {
        InitialSafe(b, s);
        RunKeeps(b, s, inputs);
      }
      assert inputs[0..] == inputs;
      for k := 0 to |inputs|
        invariant Valid() && Sized(b, Now()) && Sized(b, s) && RunAll(b, Now(), inputs[k..]) == RunAll(b, s, inputs)
      {
        assert inputs[k..][0] == inputs[k] && inputs[k..][1..] == inputs[k + 1..];
        Meet(inputs[k].0, inputs[k].1);
        Parts(Bmc);
      }
    }
  }

  lemma RecoveredTrack(m: Mem, image: Mem, t: Track)
    ensures Recovered(SideOf(m, t), image)
         == SideOf(image, t.(level := t.level << 1, recoveries := t.recoveries + 1, flags := t.flags.(requireWdt := false)))
    ensures SideOf(m, t).flags == t.flags && SideOf(m, t).level == t.level && SideOf(m, t).mem == m
  {
  }

  // The SVN byte of the manifest in the recovery capsule
  method ReadRecoverySvn(f: SpiFlash, at: nat) returns (svn: nat)
    requires at + 514 <= f.mem.Length
    ensures svn == PfmSvn(f.mem[..], at)
  {
    svn := (f.mem[at + 513] & 0xFF) as nat;
  }

  lemma SameTrack(m: Mem, t: Track, n: Mem, u: Track)
    requires SideOf(m, t) == SideOf(n, u)
    ensures m == n && t == u
  {
  }

  lemma PromotableHolds(d: Device, u: Mem, m: Mem, cfg: FlashMap)
    ensures IsPage(u) && LaidOut(cfg, |m|) && Promotable(d, u, m, cfg, false) ==> HoldsPayload(m, cfg.Staging())
  {
    hide SignatureValid, HashesMatch;
  }

  lemma PutTwice(s: State, dev: Dev, x: Side, y: Side)
    ensures Put(Put(s, dev, x), dev, y) == Put(s, dev, y)
  {
  }
}
