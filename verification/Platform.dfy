/**
 The platform state machine: what T-1 does with both flashes before a component is released from
 reset, and what T0 reacts to (fw/code/inc/tmin1_routines.h, tmin1_update.h, firmware_update.h,
 firmware_recovery.h, transition.h, t0_watchdog_handler.h, t0_update.h, t0_routines.h). Each function
 is the effect of one C function on the whole state, and Step is one turn of the T0 loop, one write by
 a running component, or a power cycle.
 */
module Platform {
  import opened NorFlash
  import opened SpiRwUtils
  import opened Ufm
  import opened Authentication
  import opened Pfm
  import opened Rebuild
  import opened PfmValidation
  import opened CapsuleValidation
  import opened FlashValidation
  import CpldUpdate
  import CpldPromotion

  // ---------------------------------------------------------------- the state

  datatype Dev = Bmc | Pch

  // The bits of bmc_flash_state and pch_flash_state
  datatype Flags = Flags(recoveryFailed: bool, allFailed: bool, pending: bool, requireWdt: bool, readyCpld: bool)

  const CLEAR := Flags(false, false, false, false, false)

  // The bits of an update intent register
  datatype Intent = Intent(pchActive: bool, pchRecovery: bool, cpldActive: bool, bmcActive: bool, bmcRecovery: bool,
                           cpldRecovery: bool, dynamic: bool, atReset: bool) {
    predicate PchFw() { pchActive || pchRecovery }
    predicate BmcFw() { bmcActive || bmcRecovery }
    predicate Cpld() { cpldActive || cpldRecovery }
    predicate Any() { PchFw() || BmcFw() || Cpld() || dynamic || atReset }
    function OnlyBmcFw(): Intent { NONE.(bmcActive := bmcActive, bmcRecovery := bmcRecovery) }
    function OnlyPchFw(): Intent { NONE.(pchActive := pchActive, pchRecovery := pchRecovery) }
    function OnlyCpld(): Intent { NONE.(cpldActive := cpldActive, cpldRecovery := cpldRecovery) }
    function Union(o: Intent): Intent {
      Intent(pchActive || o.pchActive, pchRecovery || o.pchRecovery, cpldActive || o.cpldActive, bmcActive || o.bmcActive,
             bmcRecovery || o.bmcRecovery, cpldRecovery || o.cpldRecovery, dynamic || o.dynamic, atReset || o.atReset)
    }
    // The bits that decide which capsule an update may bring
    function Word(): NorFlash.Word {
      (if pchActive then PCH_ACTIVE else 0) | (if pchRecovery then PCH_RECOVERY else 0)
      | (if cpldActive then CPLD_ACTIVE else 0) | (if bmcActive then BMC_ACTIVE else 0)
      | (if bmcRecovery then BMC_RECOVERY else 0) | (if cpldRecovery then CPLD_RECOVERY else 0)
    }
  }

  const NONE := Intent(false, false, false, false, false, false, false, false)

  // What the firmware tracks for one flash: its contents, state bits, recovery level mask with the
  // number of watchdog recoveries since the level was reset, failed attempts, the update intent and
  // recovery SVN registers, and whether the component is in reset
  datatype Side = Side(mem: Mem, flags: Flags, level: bv8, recoveries: nat, attempts: nat, intent: Intent, svn: nat, held: bool)

  datatype Part = BmcPart | Me | Acm | Ibb | Obb

  datatype Timer = BmcTimer | MeTimer | AcmBiosTimer

  // Astray: the firmware goes on to act on signed contents that it cannot act on as intended. What it does
  // then is not part of this model.
  datatype Mode = Running | Lockdown | Reconfiguring | Astray

  // What happened, in order: a component was put into reset on a platform that was provisioned or not,
  // its flash was written or verified, it was released with these flash contents; a CPLD capsule was
  // examined; the provisioned data was erased on account of a decommission capsule; a reconfiguration was
  // started; a CPLD capsule was promoted
  datatype Event =
    | Entered(dev: Dev, provisioned: bool)
    | Written(dev: Dev)
    | Verified(dev: Dev, page: Mem, before: Mem, force: bool)
    | Released(dev: Dev, mem: Mem)
    | CpldExamined
    | Decommissioned
    | Reconfigured(pending: bool)
    | CpldPromoted

  // bmc, pch: the two flashes; page: provisioned data; cpldPending: the CPLD update status word;
  // booted, enabled, armed: boot progress and watchdog timers
  datatype State = State(bmc: Side, pch: Side, page: Mem, cpldPending: bool, booted: set<Part>, enabled: set<Timer>,
                         armed: set<Timer>, provisioned: bool, mode: Mode, log: seq<Event>)

  // The device and the provisioned layout of both flashes
  datatype Board = Board(d: Device, bmc: FlashMap, pch: FlashMap) {
    function Map(dev: Dev): FlashMap { if dev == Bmc then bmc else pch }
    // Word offsets of the PCH and CPLD capsules in the BMC staging region
    function StagedPch(): nat { bmc.Staging() + 0x80_0000 }
    function StagedCpld(): nat { bmc.Staging() + 0xC0_0000 }
  }

  function Of(s: State, dev: Dev): Side { if dev == Bmc then s.bmc else s.pch }

  function Put(s: State, dev: Dev, side: Side): State { if dev == Bmc then s.(bmc := side) else s.(pch := side) }

  function Noted(s: State, e: Event): State { s.(log := s.log + [e]) }

  function Stray(s: State): State { s.(mode := Astray) }

  predicate Pending(s: State) { s.bmc.flags.pending || s.pch.flags.pending }

  // The flashes are large enough for everything at the provisioned and fixed addresses
  predicate Sized(b: Board, s: State) {
    && IsPage(s.page) && LaidOut(b.bmc, |s.bmc.mem|) && LaidOut(b.pch, |s.pch.mem|)
    && b.StagedCpld() + CpldUpdate.AREA <= CpldUpdate.RECOVERY && CpldUpdate.RECOVERY + CpldUpdate.AREA <= |s.bmc.mem|
  }

  function PartsOf(dev: Dev): set<Part> { if dev == Bmc then {BmcPart} else {Me, Acm, Ibb, Obb} }

  function Timers(dev: Dev): set<Timer> { if dev == Bmc then {BmcTimer} else {MeTimer, AcmBiosTimer} }

  // ---------------------------------------------------------------- T-1 on one flash

  // The recovery capsule and the active manifest are such that the regions marked for a level can be rebuilt
  predicate CanRecoverAtLevel(cfg: FlashMap, m: Mem, level: bv8) {
    && HoldsPayload(m, cfg.Recovery()) && HasBody(m, cfg.Active())
    && UsableAtLevel(PayloadAt(m, cfg.Recovery()), WalkedBody(m, cfg.Active()), level, cfg.stagingAddr, cfg.Recovery(),
                     cfg.Active() + 264, cfg.pfm, |m|)
  }

  // The flash after perform_wdt_recovery with an authentic recovery capsule
  function WdtImage(cfg: FlashMap, m: Mem, level: bv8): (r: Mem)
    requires CanRecoverAtLevel(cfg, m, level)
    ensures |r| == |m|
  {
    WdtRecovered(PayloadAt(m, cfg.Recovery()), Definitions(m, cfg.Active()), level, cfg.stagingAddr, cfg.pfm, m)
  }

  // incr_fw_recovery_level, once the flash holds the recovered image
  function Recovered(side: Side, mem: Mem): Side {
    side.(mem := mem, level := side.level << 1, recoveries := side.recoveries + 1, flags := side.flags.(requireWdt := false))
  }

  // perform_wdt_recovery
  function WdtRecovery(b: Board, s: State, dev: Dev): (r: State)
    requires Sized(b, s)
    ensures Sized(b, r)
  {
    var side := Of(s, dev);
    if !side.flags.requireWdt || !ValidAt(b.d, s.page, side.mem, b.Map(dev).Recovery()) then s
    else if !CanRecoverAtLevel(b.Map(dev), side.mem, side.level) then Stray(s)
    else Noted(Put(s, dev, Recovered(side, WdtImage(b.Map(dev), side.mem, side.level))), Written(dev))
  }

  function ModeOf(all: bool): Rebuild.Mode { if all then StaticAndDynamic else StaticOnly }

  // The staged capsule can rebuild the active image
  predicate CanUpdate(cfg: FlashMap, m: Mem, all: bool) {
    && HoldsPayload(m, cfg.Staging())
    && Usable(PayloadAt(m, cfg.Staging()), ModeOf(all), cfg.stagingAddr, cfg.Staging(), cfg.pfm, |m|)
  }

  // The image perform_active_firmware_update leaves
  function UpdatedImage(cfg: FlashMap, m: Mem, all: bool): (r: Mem)
    requires CanUpdate(cfg, m, all)
    ensures |r| == |m|
  {
    RebuiltFrom(PayloadAt(m, cfg.Staging()), ModeOf(all), cfg.stagingAddr, cfg.pfm, m)
  }

  // perform_active_firmware_update
  function ActiveUpdate(b: Board, s: State, dev: Dev, i: Intent): (r: State)
    requires Sized(b, s)
    ensures Sized(b, r)
  {
    var side := Of(s, dev);
    var recovery := if dev == Bmc then i.bmcRecovery else i.pchRecovery;
    if !CanUpdate(b.Map(dev), side.mem, recovery || i.dynamic) then Stray(s)
    else
      var next := side.(attempts := 0, flags := side.flags.(pending := side.flags.pending || recovery),
                        mem := UpdatedImage(b.Map(dev), side.mem, recovery || i.dynamic));
      Noted(Put(s, dev, next).(enabled := s.enabled + Timers(dev)), Written(dev))
  }

  // check_capsule_before_update for the capsule at a word offset of the flash of dev
  function Examine(b: Board, s: State, dev: Dev, at: nat, i: Intent): (v: Verdict)
    requires Sized(b, s) && at + 514 <= |Of(s, dev).mem|
    ensures v.CancelsKey? ==> v.id <= 127
  {
    var m := Of(s, dev).mem;
    VerdictKeyId(b.d, s.page, m, at, i.Word(), s.pch.svn, s.bmc.svn);
    Check(b.d, s.page, m, at, i.Word(), s.pch.svn, s.bmc.svn)
  }

  // What check_capsule_before_update does besides giving its verdict
  function Examined(b: Board, s: State, dev: Dev, v: Verdict): (r: State)
    requires Sized(b, s) && (v.CancelsKey? ==> v.id <= 127)
    ensures Sized(b, r)
  {
    match v
    case Refused => Put(s, dev, Of(s, dev).(attempts := Of(s, dev).attempts + 1))
    case Proceeds => s
    case CancelsKey(_, _) => s.(page := PageAfter(s.page, v))
    case Decommissions => Noted(Erased(s), Reconfigured(Pending(s)))
  }

  // The provisioned data erased
  function Erased(s: State): State {
    Noted(s.(page := ErasedPage(), provisioned := false, mode := Reconfiguring), Decommissioned)
  }

  // trigger_cpld_update
  function TriggerCpld(s: State, recovery: bool): State {
    Noted(s.(cpldPending := s.cpldPending || recovery, mode := Reconfiguring), Reconfigured(Pending(s)))
  }

  // The firmware part of act_on_bmc_update_intent and act_on_pch_update_intent
  function FirmwareUpdate(b: Board, s: State, dev: Dev, i: Intent): (r: State)
    requires Sized(b, s)
    ensures Sized(b, r)
  {
    var v := Examine(b, s, dev, b.Map(dev).Staging(), if dev == Bmc then i.OnlyBmcFw() else i.OnlyPchFw());
    if v == Proceeds then ActiveUpdate(b, s, dev, i) else Examined(b, s, dev, v)
  }

  // The CPLD part of act_on_bmc_update_intent
  function ActOnCpldIntent(b: Board, s: State, i: Intent): (r: State)
    requires Sized(b, s)
    ensures Sized(b, r)
  {
    if Pending(s) || s.pch.intent.PchFw() then s.(bmc := s.bmc.(intent := i.OnlyCpld()))
    else
      var v := Examine(b, s, Bmc, b.StagedCpld(), i.OnlyCpld());
      var t := Noted(s, CpldExamined);
      if v == Proceeds then TriggerCpld(t, i.cpldRecovery) else Examined(b, t, Bmc, v)
  }

  // act_on_bmc_update_intent
  function ActOnBmc(b: Board, s: State): (r: State)
    requires Sized(b, s)
    ensures Sized(b, r)
  {
    var i := s.bmc.intent;
    var t := s.(bmc := s.bmc.(intent := NONE));
    var f := if i.BmcFw() then FirmwareUpdate(b, t, Bmc, i) else t;
    if f.mode == Running && i.Cpld() then ActOnCpldIntent(b, f, i) else f
  }

  // act_on_pch_update_intent
  function ActOnPch(b: Board, s: State): (r: State)
    requires Sized(b, s)
    ensures Sized(b, r)
  {
    var i := s.pch.intent;
    var t := s.(pch := s.pch.(intent := NONE));
    if i.PchFw() then FirmwareUpdate(b, t, Pch, i) else t
  }

  // The state with the outcome of an authentication
  function Stored(s: State, dev: Dev, o: Outcome, svn: nat): State {
    var side := Of(s, dev);
    Noted(Put(s.(page := o.page), dev,
              side.(mem := o.mem, svn := svn, flags := side.flags.(recoveryFailed := o.recoveryFailed, allFailed := o.allFailed))),
          Written(dev))
  }

  // authenticate_and_recover_spi_flash
  function Authenticated(b: Board, s: State, dev: Dev, force: bool): (r: State)
    requires Sized(b, s)
    ensures Sized(b, r)
  {
    var m, cfg := Of(s, dev).mem, b.Map(dev);
    if !Workable(b.d, s.page, m, cfg, force) then Stray(s)
    else
      var o := Authenticate(b.d, s.page, m, cfg, force);
      var t := Stored(s, dev, o, PfmSvn(o.mem, cfg.Recovery()));
      if o.active then Noted(t, Verified(dev, s.page, m, force)) else t
  }

  // The first lines of perform_tmin1_operations_for_bmc and perform_tmin1_operations_for_pch
  function Quieted(s: State, dev: Dev): State {
    s.(booted := s.booted - PartsOf(dev), armed := s.armed - Timers(dev))
  }

  function ActOn(b: Board, s: State, dev: Dev): (r: State)
    requires Sized(b, s)
    ensures Sized(b, r)
  {
    if dev == Bmc then ActOnBmc(b, s) else ActOnPch(b, s)
  }

  // perform_tmin1_operations_for_bmc and perform_tmin1_operations_for_pch
  function OperateOn(b: Board, s: State, dev: Dev, force: bool): (r: State)
    requires Sized(b, s)
    ensures Sized(b, r)
  {
    var t := WdtRecovery(b, Quieted(s, dev), dev);
    var a := if t.mode == Running then ActOn(b, t, dev) else t;
    if a.mode == Running then Authenticated(b, a, dev, force) else a
  }

  // ---------------------------------------------------------------- T-1 on both flashes

  // The payload at from in one flash can be copied to a page of another
  predicate CanHandOver(m: Mem, src: Mem, from: nat, page: nat) {
    HoldsPayload(src, from) && 4096 * page + SignedPayloadSize(src, from) <= 4 * |m|
  }

  // copy_between_flashes of that payload
  function CopiedTo(m: Mem, src: Mem, from: nat, page: nat): (r: Mem)
    requires CanHandOver(m, src, from, page)
    ensures |r| == |m|
  {
    CopiedBetween(m, page, SignedPayloadSize(src, from), PayloadAt(src, from))
  }

  // The PCH side with a capsule handed over from the BMC flash, and the BMC's intent
  function HandedOver(i: Intent, side: Side, mem: Mem): Side {
    var copied := side.(mem := mem);
    if i.pchRecovery && side.flags.recoveryFailed then copied.(flags := copied.flags.(pending := true))
    else copied.(intent := i.OnlyPchFw().(dynamic := i.dynamic).Union(copied.intent))
  }

  // prep_for_oob_pch_fw_update
  function PrepForOob(b: Board, s: State): (r: State)
    requires Sized(b, s)
    ensures Sized(b, r)
  {
    var i := s.bmc.intent;
    if !i.PchFw() then s
    else
      var v := Examine(b, s, Bmc, b.StagedPch(), i.OnlyPchFw());
      if v != Proceeds then Examined(b, s, Bmc, v)
      else if !CanHandOver(s.pch.mem, s.bmc.mem, b.StagedPch(), b.pch.staging) then Stray(s)
      else
        Noted(s.(pch := HandedOver(i, s.pch, CopiedTo(s.pch.mem, s.bmc.mem, b.StagedPch(), b.pch.staging))), Written(Pch))
  }

  // perform_cpld_recovery_update
  function PromoteCpld(b: Board, s: State): (r: State)
    requires Sized(b, s)
    ensures Sized(b, r)
  {
    var m, at := s.bmc.mem, b.StagedCpld();
    Noted(Noted(s.(bmc := s.bmc.(mem := CpldPromotion.CopiedOver(m, at), flags := s.bmc.flags.(readyCpld := false)),
                   page := SvnWritten(s.page, CpldPolicy, CpldSvn(m, at)), cpldPending := false), Written(Bmc)), CpldPromoted)
  }

  // The first half of process_pending_recovery_update
  function PendingUpdate(b: Board, s: State, dev: Dev): (r: State)
    requires Sized(b, s)
    ensures Sized(b, r)
  {
    var side, cfg := Of(s, dev), b.Map(dev);
    var done := side.(flags := side.flags.(pending := false));
    if !side.flags.pending then s
    else if !Promotable(b.d, s.page, side.mem, cfg, false) then Put(s, dev, done.(attempts := done.attempts + 1))
    else if !CopyFits(side.mem, cfg) then Stray(s)
    else
      var mem := Promoted(side.mem, cfg);
      Noted(Put(s, dev, done.(mem := mem)).(page := SvnWritten(s.page, cfg.policy, PfmSvn(mem, cfg.Staging()))), Written(dev))
  }

  // process_pending_recovery_update
  function ProcessPending(b: Board, s: State, dev: Dev): (r: State)
    requires Sized(b, s)
    ensures Sized(b, r)
  {
    var t := PendingUpdate(b, s, dev);
    if t.mode == Running && Of(t, dev).flags.readyCpld then PromoteCpld(b, t) else t
  }

  function ProcessBoth(b: Board, s: State): (r: State)
    requires Sized(b, s)
    ensures Sized(b, r)
  {
    var t := ProcessPending(b, s, Bmc);
    if t.mode == Running then ProcessPending(b, t, Pch) else t
  }

  // The state in which both flashes are worked on
  function Prepared(b: Board, s: State): (r: State)
    requires Sized(b, s)
    ensures Sized(b, r)
  {
    var t := PrepForOob(b, s);
    if t.mode == Running then ProcessBoth(b, t) else t
  }

  // What an entry sees from outside: the protect-in-transit check, and the force-recovery pin at each
  // authentication
  datatype Pins = Pins(pitPasses: bool, forceBmc: bool, forcePch: bool)

  // The last two lines of perform_tmin1_operations
  function OperateOnBoth(b: Board, s: State, e: Pins): (r: State)
    requires Sized(b, s)
    ensures Sized(b, r)
  {
    var t := OperateOn(b, s, Bmc, e.forceBmc);
    if t.mode == Running then OperateOn(b, t, Pch, e.forcePch) else t
  }

  // perform_tmin1_operations
  function Tmin1(b: Board, s: State, e: Pins): (r: State)
    requires Sized(b, s)
    ensures Sized(b, r)
  {
    if !e.pitPasses then s.(mode := Lockdown)
    else
      var t := Prepared(b, s);
      if t.mode == Running then OperateOnBoth(b, t, e) else t
  }

  // ---------------------------------------------------------------- leaving T-1

  predicate SameFlashes(s: State, r: State) { r.bmc.mem == s.bmc.mem && r.pch.mem == s.pch.mem && r.page == s.page }

  function Release(s: State, dev: Dev): (r: State)
    ensures SameFlashes(s, r)
  {
    Noted(Put(s, dev, Of(s, dev).(held := false)), Released(dev, Of(s, dev).mem))
  }

  // tmin1_boot_bmc
  function BootBmc(s: State): (r: State)
    ensures SameFlashes(s, r)
  {
    if s.bmc.flags.allFailed then s
    else
      var t := Release(s, Bmc);
      if s.provisioned && !s.bmc.flags.recoveryFailed && !s.pch.flags.allFailed then t.(armed := t.armed + {BmcTimer}) else t
  }

  // tmin1_boot_pch
  function BootPch(s: State): (r: State)
    ensures SameFlashes(s, r)
  {
    if s.pch.flags.allFailed || s.bmc.flags.allFailed then s
    else
      var t := Release(s, Pch);
      if s.provisioned && !s.pch.flags.recoveryFailed then t.(armed := t.armed + {MeTimer}) else t
  }

  // perform_entry_to_t0
  function EnterT0(s: State): (r: State)
    ensures SameFlashes(s, r)
  {
    if s.bmc.flags.allFailed && s.pch.flags.allFailed then s.(mode := Lockdown) else BootPch(BootBmc(s))
  }

  // perform_entry_to_t0_bmc_only
  function EnterT0BmcOnly(s: State): (r: State)
    ensures SameFlashes(s, r)
  {
    if s.bmc.flags.allFailed then s
    else
      var t := Release(s, Bmc);
      if s.pch.flags.allFailed then t else t.(booted := t.booted - {BmcPart}, armed := t.armed + {BmcTimer})
  }

  function Hold(s: State, dev: Dev): (r: State)
    ensures SameFlashes(s, r)
  {
    Noted(Put(s, dev, Of(s, dev).(held := true)), Entered(dev, s.provisioned))
  }

  // perform_platform_reset
  function PlatformReset(b: Board, s: State, e: Pins): (r: State)
    requires Sized(b, s)
    ensures Sized(b, r)
  {
    var t := Hold(Hold(s, Bmc), Pch);
    var r := if t.provisioned then Tmin1(b, t, e) else t;
    if r.mode == Running then EnterT0(r) else r
  }

  // perform_bmc_only_reset
  function BmcOnlyReset(b: Board, s: State, force: bool): (r: State)
    requires Sized(b, s)
    ensures Sized(b, r)
  {
    var r := OperateOn(b, Hold(s, Bmc), Bmc, force);
    if r.mode == Running then EnterT0BmcOnly(r) else r
  }

  // perform_pch_only_reset
  function PchOnlyReset(b: Board, s: State, force: bool): (r: State)
    requires Sized(b, s)
    ensures Sized(b, r)
  {
    var r := OperateOn(b, Hold(s, Pch), Pch, force);
    if r.mode == Running then BootPch(r) else r
  }

  // ---------------------------------------------------------------- T0

  // trigger_pch_wdt_recovery and trigger_bmc_wdt_recovery
  function TriggerWdt(b: Board, s: State, dev: Dev, e: Pins): (r: State)
    requires Sized(b, s)
    ensures Sized(b, r)
  {
    if Of(s, dev).level & 0x1C != 0 then PlatformReset(b, Put(s, dev, Of(s, dev).(flags := CLEAR.(requireWdt := true))), e)
    else s.(enabled := s.enabled - Timers(dev))
  }

  // reset_fw_recovery_level
  function ResetLevel(s: State, dev: Dev): State { Put(s, dev, Of(s, dev).(level := 4, recoveries := 0)) }

  datatype Checkpoint = NoMessage | Start | Pause | Resume | Complete | AuthFail

  // bmc_watchdog_timer_handler
  function BmcWatchdog(b: Board, s: State, expired: bool, chk: Checkpoint, e: Pins): (r: State)
    requires Sized(b, s)
    ensures Sized(b, r)
  {
    if BmcTimer !in s.enabled || BmcTimer !in s.armed then s
    else if expired then TriggerWdt(b, s, Bmc, e)
    else if chk.Complete? then ResetLevel(s, Bmc).(booted := s.booted + {BmcPart}, armed := s.armed - {BmcTimer})
    else s
  }

  // me_watchdog_timer_handler; ready: ME reports that it booted and authenticated
  function MeWatchdog(b: Board, s: State, expired: bool, ready: bool, e: Pins): (r: State)
    requires Sized(b, s)
    ensures Sized(b, r)
  {
    if MeTimer !in s.enabled || MeTimer !in s.armed then s
    else if expired then TriggerWdt(b, s, Pch, e)
    else if ready then
      var t := s.(booted := s.booted + {Me}, armed := s.armed - {MeTimer});
      if Obb in t.booted then ResetLevel(t, Pch) else t
    else s
  }

  // The boot progress part of acm_bios_watchdog_timer_handler
  function BiosProgress(s: State, chk: Checkpoint): State {
    if Ibb in s.booted then
      if chk.Complete? then
        var t := s.(booted := s.booted + {Obb}, armed := s.armed - {AcmBiosTimer});
        if Me in t.booted then ResetLevel(t, Pch) else t
      else s
    else if chk.Start? then s.(booted := s.booted + {Acm})
    else if chk.Complete? then s.(booted := s.booted + {Ibb})
    else s
  }

  // acm_bios_watchdog_timer_handler
  function AcmBiosWatchdog(b: Board, s: State, expired: bool, bios: Checkpoint, acm: Checkpoint, e: Pins): (r: State)
    requires Sized(b, s)
    ensures Sized(b, r)
  {
    if AcmBiosTimer !in s.enabled || AcmBiosTimer !in s.armed then s
    else
      var t := BiosProgress(s, bios);
      var last := if Ibb !in s.booted && Acm !in t.booted then acm else bios;
      if expired || last.AuthFail? then TriggerWdt(b, t, Pch, e) else t
  }

  // platform_reset_handler, when a PLTRST# was detected; counting: the ACM/BIOS timer is running
  function PlatformResetSeen(s: State, counting: bool): State {
    var t := if !counting && !s.pch.flags.recoveryFailed
             then s.(booted := s.booted - {Acm, Ibb, Obb}, armed := s.armed + {AcmBiosTimer}) else s;
    t.(pch := t.pch.(intent := t.pch.intent.(atReset := false)), bmc := t.bmc.(intent := t.bmc.intent.(atReset := false)))
  }

  // An intent register is cleared, and a firmware recovery update made due
  function Taken(s: State, dev: Dev, pending: bool): State {
    var side := Of(s, dev);
    Put(s, dev, side.(intent := NONE, flags := side.flags.(pending := side.flags.pending || pending)))
  }

  // The PCH intent is turned down: no PCH bits, too many failed attempts, or an active update without a
  // valid recovery image
  predicate PchRefused(s: State) {
    var i := s.pch.intent;
    !i.PchFw() || s.pch.attempts >= 3 || (s.pch.flags.recoveryFailed && i.pchActive)
  }

  predicate BmcRefused(s: State) {
    var i := s.bmc.intent;
    !(i.BmcFw() || i.PchFw() || i.Cpld()) || s.bmc.attempts >= 3 || (s.bmc.flags.recoveryFailed && i.bmcActive)
  }

  // mb_update_intent_handler_for_pch
  function PchIntent(b: Board, s: State, e: Pins): (r: State)
    requires Sized(b, s)
    ensures Sized(b, r)
  {
    var i := s.pch.intent;
    if !i.Any() || i.atReset then s
    else if PchRefused(s) then Taken(s, Pch, false)
    else
      var t := if s.pch.flags.recoveryFailed && i.pchRecovery then Taken(s, Pch, true) else s;
      if i.pchActive then PchOnlyReset(b, t, e.forcePch) else PlatformReset(b, t, e)
  }

  // mb_update_intent_handler_for_bmc
  function BmcIntent(b: Board, s: State, e: Pins): (r: State)
    requires Sized(b, s)
    ensures Sized(b, r)
  {
    var i := s.bmc.intent;
    if !i.Any() || i.atReset then s
    else if BmcRefused(s) then Taken(s, Bmc, false)
    else
      var t := if s.bmc.flags.recoveryFailed && i.bmcRecovery then Taken(s, Bmc, true) else s;
      if s.pch.flags.recoveryFailed && i.pchActive then Taken(t, Bmc, false)
      else if i.bmcRecovery || i.Cpld() || i.PchFw() then PlatformReset(b, t, e)
      else BmcOnlyReset(b, t, e.forceBmc)
  }

  // bmc_reset_handler; seen: the BMC reads its boot block again
  function BmcReset(b: Board, s: State, seen: bool, e: Pins): (r: State)
    requires Sized(b, s)
    ensures Sized(b, r)
  {
    if BmcPart in s.booted && seen then BmcOnlyReset(b, s, e.forceBmc) else s
  }

  // is_timed_boot_done
  predicate AllBooted(s: State) { s.booted == {BmcPart, Me, Acm, Ibb, Obb} }

  // post_update_routine
  function PostUpdate(b: Board, s: State, e: Pins): (r: State)
    requires Sized(b, s)
    ensures Sized(b, r)
  {
    if !AllBooted(s) || !(Pending(s) || s.cpldPending) then s
    else PlatformReset(b, if s.cpldPending then s.(bmc := s.bmc.(flags := s.bmc.flags.(readyCpld := true))) else s, e)
  }

  // ---------------------------------------------------------------- runs

  // What can happen next: a component writes its update intent register or, while it runs, its own
  // flash; a provisioning command changes the provisioned data; the T0 loop polls one of its sources;
  // the device is powered up, or configured again, with whatever the flashes and the persistent words hold
  datatype Input =
    | IntentWritten(dev: Dev, intent: Intent)
    | FlashWritten(dev: Dev, mem: Mem)
    | DataProvisioned(page: Mem, provisioned: bool)
    | PollPlatformReset(counting: bool)
    | PollBmcTimer(expired: bool, chk: Checkpoint)
    | PollMeTimer(expired: bool, ready: bool)
    | PollAcmBiosTimer(expired: bool, bios: Checkpoint, acm: Checkpoint)
    | PollBmcIntent
    | PollPchIntent
    | PollBmcReset(seen: bool)
    | PollPostUpdate
    | PowerUp(bmc: Mem, pch: Mem, page: Mem, cpldPending: bool, provisioned: bool)

  // The volatile state of one flash after power-up
  function Fresh(m: Mem): Side { Side(m, CLEAR, 4, 0, 0, NONE, 0, true) }

  predicate SameParts(s: State, i: Input) {
    i.PowerUp? && IsPage(i.page) && |i.bmc| == |s.bmc.mem| && |i.pch| == |s.pch.mem|
  }

  function PoweredUp(b: Board, s: State, i: Input): (r: State)
    requires Sized(b, s) && SameParts(s, i)
    ensures Sized(b, r)
  {
    State(Fresh(i.bmc), Fresh(i.pch), i.page, i.cpldPending, {}, {BmcTimer, MeTimer, AcmBiosTimer}, {}, i.provisioned, Running, s.log)
  }

  // One turn of the T0 loop on a provisioned platform
  function Poll(b: Board, s: State, i: Input, e: Pins): (r: State)
    requires Sized(b, s)
    ensures Sized(b, r)
  {
    match i
    case PollPlatformReset(counting) => PlatformResetSeen(s, counting)
    case PollBmcTimer(expired, chk) => BmcWatchdog(b, s, expired, chk, e)
    case PollMeTimer(expired, ready) => MeWatchdog(b, s, expired, ready, e)
    case PollAcmBiosTimer(expired, bios, acm) => AcmBiosWatchdog(b, s, expired, bios, acm, e)
    case PollBmcIntent => BmcIntent(b, s, e)
    case PollPchIntent => PchIntent(b, s, e)
    case PollBmcReset(seen) => BmcReset(b, s, seen, e)
    case PollPostUpdate => PostUpdate(b, s, e)
    case _ => s
  }

  function Step(b: Board, s: State, i: Input, e: Pins): (r: State)
    requires Sized(b, s)
    ensures Sized(b, r)
  {
    if SameParts(s, i) then PlatformReset(b, PoweredUp(b, s, i), e)
    else if s.mode != Running then s
    else if i.IntentWritten? then Put(s, i.dev, Of(s, i.dev).(intent := i.intent))
    else if i.FlashWritten? then RewrittenByOwner(b, s, i.dev, i.mem)
    else if i.DataProvisioned? then (if IsPage(i.page) then s.(page := i.page, provisioned := i.provisioned) else s)
    else if s.provisioned then Poll(b, s, i, e)
    else s
  }

  // A component writes its own flash, which it cannot while it is held in reset
  function RewrittenByOwner(b: Board, s: State, dev: Dev, mem: Mem): (r: State)
    requires Sized(b, s)
    ensures Sized(b, r)
  {
    if Of(s, dev).held || |mem| != |Of(s, dev).mem| then s else Noted(Put(s, dev, Of(s, dev).(mem := mem)), Written(dev))
  }

  function RunAll(b: Board, s: State, inputs: seq<(Input, Pins)>): (r: State)
    requires Sized(b, s)
    ensures Sized(b, r)
    decreases |inputs|
  {
    if inputs == [] then s else RunAll(b, Step(b, s, inputs[0].0, inputs[0].1), inputs[1..])
  }

  // Before the first power-up
  predicate Initial(s: State) {
    s == State(Fresh(s.bmc.mem), Fresh(s.pch.mem), s.page, s.cpldPending, {}, {BmcTimer, MeTimer, AcmBiosTimer}, {}, s.provisioned, Running, [])
  }
}
