/**
 Updates from the intent to the released component: an ordinary active update of the BMC, an update of the
 PCH whose capsule lies in the BMC flash, and a recovery update up to the promotion after the next boot.
 */
module UpdateRuns {
  import opened NorFlash
  import opened SpiRwUtils
  import opened Ufm
  import opened Authentication
  import opened Pfm
  import opened Decompression
  import opened Rebuild
  import opened PfmValidation
  import opened CapsuleValidation
  import opened FlashValidation
  import opened Platform
  import opened PlatformLog
  import opened PlatformWork
  import opened PlatformSteps
  import opened PlatformEffects
  import opened PlatformTimers
  import opened RecoveryMatrix
  import opened UpdateEffect
  import opened UpdateLaws

  // ---------------------------------------------------------------- an update in T-1

  // The state in which an intent is acted upon: this component's progress and timers are gone, its register is
  // cleared
  function Acting(s: State, dev: Dev): State {
    var q := s.(booted := s.booted - (if dev == Bmc then {BmcPart} else {Me, Acm, Ibb, Obb}),
                armed := s.armed - (if dev == Bmc then {BmcTimer} else {MeTimer, AcmBiosTimer}));
    Put(q, dev, Of(q, dev).(intent := NONE))
  }

  // No CPLD update is asked for
  predicate FirmwareOnly(i: Intent) { !i.cpldActive && !i.cpldRecovery }

  // Without a recovery request and without CPLD bits, T-1 work on a flash is the update that the intent asks
  // for, if any, and then the authentication
  lemma UpdateThenAuthenticate(b: Board, s: State, dev: Dev, force: bool)
    requires Sized(b, s) && s.mode == Running && !Of(s, dev).flags.requireWdt && (dev == Bmc ==> FirmwareOnly(s.bmc.intent))
    ensures var i, t := Of(s, dev).intent, Acting(s, dev);
            && Sized(b, t)
            && var f := if Asks(i, dev) then FirmwareUpdate(b, t, dev, i) else t;
            OperateOn(b, s, dev, force) == if f.mode == Running then Authenticated(b, f, dev, force) else f
  {
    hide *;
    ActingFits(b, s, dev);
    NoRequest(b, s, dev);
    OperateOnIs(b, s, dev, force);
    BeforeBmc(b, s);
    BeforePch(b, s);
    QuietedRuns(b, s, dev);
    Sides(b, s);
    if dev == Bmc {
      BmcActs(b, s);
    } else {
      PchActs(b, s);
    }
  }

  lemma ActingFits(b: Board, s: State, dev: Dev)
    requires Sized(b, s)
    ensures Sized(b, Acting(s, dev)) && Sized(b, Quieted(s, dev)) && Acting(s, dev).mode == s.mode
  {
  }

  lemma QuietedRuns(b: Board, s: State, dev: Dev)
    ensures Quieted(s, dev).mode == s.mode && Of(Quieted(s, dev), dev) == Of(s, dev) && (dev == Bmc || dev == Pch)
  {
  }

  lemma NoRequest(b: Board, s: State, dev: Dev)
    requires Sized(b, s) && !Of(s, dev).flags.requireWdt
    ensures Sized(b, Quieted(s, dev)) && BeforeIntents(b, s, dev) == Quieted(s, dev)
  {
    hide ValidAt, CanRecoverAtLevel, WdtImage, Sized;
    QuietedWorks(b, s, dev);
  }

  lemma BmcActs(b: Board, s: State)
    requires Sized(b, s) && Sized(b, Quieted(s, Bmc)) && Sized(b, Acting(s, Bmc)) && FirmwareOnly(s.bmc.intent)
    ensures ActOnBmc(b, Quieted(s, Bmc))
         == if Asks(s.bmc.intent, Bmc) then FirmwareUpdate(b, Acting(s, Bmc), Bmc, s.bmc.intent) else Acting(s, Bmc)
  {
    assert Quieted(s, Bmc).(bmc := Quieted(s, Bmc).bmc.(intent := NONE)) == Acting(s, Bmc);
    hide Sized, FirmwareUpdate, ActOnCpldIntent, Acting;
  }

  lemma PchActs(b: Board, s: State)
    requires Sized(b, s) && Sized(b, Quieted(s, Pch)) && Sized(b, Acting(s, Pch))
    ensures ActOnPch(b, Quieted(s, Pch))
         == if Asks(s.pch.intent, Pch) then FirmwareUpdate(b, Acting(s, Pch), Pch, s.pch.intent) else Acting(s, Pch)
  {
    assert Quieted(s, Pch).(pch := Quieted(s, Pch).pch.(intent := NONE)) == Acting(s, Pch);
    hide Sized, FirmwareUpdate, Acting;
  }

  // ---------------------------------------------------------------- authentication of a good flash

  // Both regions are good
  ghost predicate Good(b: Board, s: State, dev: Dev) {
    var m, cfg := Of(s, dev).mem, b.Map(dev);
    && IsPage(s.page) && LaidOut(cfg, |m|) && ActiveValid(b.d, s.page, m, 1024 * cfg.pfm)
    && CapsuleValid(b.d, s.page, m, 1024 * cfg.recovery)
  }

  // A flash with two good regions is left as it is, unless a recovery is forced: no failure is recorded, and the
  // SVN of the recovery image is noted
  lemma GoodStays(b: Board, s: State, dev: Dev)
    requires Sized(b, s) && Good(b, s, dev)
    ensures 1024 * b.Map(dev).recovery + 513 < |Of(s, dev).mem|
    ensures var side := Of(s, dev);
            Authenticated(b, s, dev, false)
              == Put(s, dev, side.(svn := (side.mem[1024 * b.Map(dev).recovery + 513] & 0xFF) as nat,
                                   flags := side.flags.(recoveryFailed := false, allFailed := false)))
                   .(log := s.log + [Written(dev), Verified(dev, s.page, side.mem, false)])
  {
    hide *;
    GoodIs(b, s, dev);
    AuthenticateCases(b.d, s.page, Of(s, dev).mem, b.Map(dev), false);
    GoodIsWorkable(b, s, dev);
    GoodStored(b, s, dev);
  }

  lemma GoodIs(b: Board, s: State, dev: Dev)
    requires Good(b, s, dev)
    ensures var m, cfg := Of(s, dev).mem, b.Map(dev);
            && IsPage(s.page) && LaidOut(cfg, |m|) && ActiveValid(b.d, s.page, m, cfg.Active())
            && CapsuleValid(b.d, s.page, m, cfg.Recovery()) && 1024 * cfg.recovery + 513 < |m|
  {
    hide ActiveValid, CapsuleValid;
  }

  lemma GoodIsWorkable(b: Board, s: State, dev: Dev)
    requires IsPage(s.page) && LaidOut(b.Map(dev), |Of(s, dev).mem|)
    requires ActiveValid(b.d, s.page, Of(s, dev).mem, b.Map(dev).Active())
    requires CapsuleValid(b.d, s.page, Of(s, dev).mem, b.Map(dev).Recovery())
    ensures Workable(b.d, s.page, Of(s, dev).mem, b.Map(dev), false)
  {
    hide ActiveValid, CapsuleValid, CanRecover, Promotable, CopyFits, CanRebuild;
  }

  lemma GoodStored(b: Board, s: State, dev: Dev)
    requires Sized(b, s) && IsPage(s.page) && LaidOut(b.Map(dev), |Of(s, dev).mem|) && 1024 * b.Map(dev).recovery + 513 < |Of(s, dev).mem|
    requires var m, cfg := Of(s, dev).mem, b.Map(dev);
             Workable(b.d, s.page, m, cfg, false) && Authenticate(b.d, s.page, m, cfg, false) == Outcome(m, s.page, true, false, false)
    ensures var side := Of(s, dev);
            Authenticated(b, s, dev, false)
              == Put(s, dev, side.(svn := (side.mem[1024 * b.Map(dev).recovery + 513] & 0xFF) as nat,
                                   flags := side.flags.(recoveryFailed := false, allFailed := false)))
                   .(log := s.log + [Written(dev), Verified(dev, s.page, side.mem, false)])
  {
    GoodNoted(b, s, dev);
    hide *;
    var m := Of(s, dev).mem;
    NotedTwice(s, dev, m, (m[1024 * b.Map(dev).recovery + 513] & 0xFF) as nat);
  }

  lemma GoodNoted(b: Board, s: State, dev: Dev)
    requires Sized(b, s) && IsPage(s.page) && LaidOut(b.Map(dev), |Of(s, dev).mem|) && 1024 * b.Map(dev).recovery + 513 < |Of(s, dev).mem|
    requires var m, cfg := Of(s, dev).mem, b.Map(dev);
             Workable(b.d, s.page, m, cfg, false) && Authenticate(b.d, s.page, m, cfg, false) == Outcome(m, s.page, true, false, false)
    ensures var m := Of(s, dev).mem;
            Authenticated(b, s, dev, false)
              == Noted(Stored(s, dev, Outcome(m, s.page, true, false, false), (m[1024 * b.Map(dev).recovery + 513] & 0xFF) as nat),
                       Verified(dev, s.page, m, false))
  {
    hide Workable, Authenticate, Sized, Stored, Noted, LaidOut, Of;
  }

  lemma NotedTwice(s: State, dev: Dev, m: Mem, svn: nat)
    requires m == Of(s, dev).mem
    ensures Noted(Stored(s, dev, Outcome(m, s.page, true, false, false), svn), Verified(dev, s.page, m, false))
         == Put(s, dev, Of(s, dev).(svn := svn, flags := Of(s, dev).flags.(recoveryFailed := false, allFailed := false)))
              .(log := s.log + [Written(dev), Verified(dev, s.page, m, false)])
  {
  }

  // What the recovery matrix comes to on the platform: whatever regions are good, the flash, the minimum SVN and
  // the two failure bits are those of its row, the SVN of the recovery region is noted as it then is, and the
  // contents count as verified exactly when an active image was found good or was rebuilt
  lemma AuthenticatedByRows(b: Board, s: State, dev: Dev, force: bool, x: Regions) returns (mid: Mem)
    requires Sized(b, s) && InState(b.d, s.page, Of(s, dev).mem, b.Map(dev), x) && IsPage(s.page) && LaidOut(b.Map(dev), |Of(s, dev).mem|)
    requires Workable(b.d, s.page, Of(s, dev).mem, b.Map(dev), force)
    ensures var side, cfg, r := Of(s, dev), b.Map(dev), Authenticated(b, s, dev, force);
            var next, copies := Of(r, dev), Copies(side.mem, cfg, x);
            && |next.mem| == |side.mem| && 1024 * cfg.recovery + 513 < |side.mem| && 1024 * cfg.staging + 513 < |side.mem|
            && AfterCopy(side.mem, mid, cfg, copies)
            && (if (x.recovery || copies) && (force || !x.active)
                then forall j: nat | j < |mid| :: AfterRebuild(mid, next.mem, cfg, j) else next.mem == mid)
            && next == side.(mem := next.mem, svn := (next.mem[1024 * cfg.recovery + 513] & 0xFF) as nat,
                             flags := side.flags.(recoveryFailed := x.active && !x.recovery && !copies,
                                                  allFailed := !x.active && !x.recovery && !x.staging))
            && r.page == (if copies then SvnWritten(s.page, cfg.policy, (side.mem[1024 * cfg.staging + 513] & 0xFF) as nat) else s.page)
            && r.log == s.log + [Written(dev)]
                        + (if x.active || x.recovery || copies then [Verified(dev, s.page, side.mem, force)] else [])
            && Of(r, Other(dev)) == Of(s, Other(dev)) && r.mode == s.mode
  {
    hide *;
    var m, cfg := Of(s, dev).mem, b.Map(dev);
    mid := MatrixRows(b.d, s.page, m, cfg, force, x);
    StagingPlace(m, cfg);
    RecoveryPlace(m, cfg);
    SameLength(m, mid, cfg, Copies(m, cfg, x));
    AuthenticateLength(b.d, s.page, m, cfg, force);
    AuthenticationStored(b, s, dev, force, m, cfg, Authenticate(b.d, s.page, m, cfg, force));
  }

  lemma AuthenticateLength(d: Device, u: Mem, m: Mem, cfg: FlashMap, force: bool)
    requires IsPage(u) && LaidOut(cfg, |m|)
    ensures |Authenticate(d, u, m, cfg, force).mem| == |m|
  {
    hide Authenticate;
  }

  lemma RecoveryPlace(m: Mem, cfg: FlashMap)
    requires LaidOut(cfg, |m|)
    ensures 1024 * cfg.recovery + 513 < |m|
  {
  }

  lemma SameLength(m: Mem, mid: Mem, cfg: FlashMap, copies: bool)
    requires AfterCopy(m, mid, cfg, copies)
    ensures |mid| == |m|
  {
    hide HoldsPayload, PayloadAt, CopyOf;
  }

  lemma AuthenticationStored(b: Board, s: State, dev: Dev, force: bool, m: Mem, cfg: FlashMap, o: Outcome)
    requires Sized(b, s) && IsPage(s.page) && LaidOut(cfg, |m|) && m == Of(s, dev).mem && cfg == b.Map(dev)
    requires 1024 * cfg.recovery + 513 < |m| == |o.mem|
    requires Workable(b.d, s.page, m, cfg, force) && o == Authenticate(b.d, s.page, m, cfg, force)
    ensures var side, r := Of(s, dev), Authenticated(b, s, dev, force);
            && Of(r, dev) == side.(mem := o.mem, svn := (o.mem[1024 * cfg.recovery + 513] & 0xFF) as nat,
                                   flags := side.flags.(recoveryFailed := o.recoveryFailed, allFailed := o.allFailed))
            && r.page == o.page && r.log == s.log + [Written(dev)] + (if o.active then [Verified(dev, s.page, m, force)] else [])
            && Of(r, Other(dev)) == Of(s, Other(dev)) && r.mode == s.mode
  {
    var svn := (o.mem[1024 * cfg.recovery + 513] & 0xFF) as nat;
    AuthenticationNoted(b, s, dev, force, m, cfg, o, svn);
    hide *;
    StoredState(s, dev, o, svn, o.active, Verified(dev, s.page, m, force));
  }

  lemma AuthenticationNoted(b: Board, s: State, dev: Dev, force: bool, m: Mem, cfg: FlashMap, o: Outcome, svn: nat)
    requires Sized(b, s) && IsPage(s.page) && LaidOut(cfg, |m|) && m == Of(s, dev).mem && cfg == b.Map(dev)
    requires 1024 * cfg.recovery + 513 < |m| == |o.mem| && svn == (o.mem[1024 * cfg.recovery + 513] & 0xFF) as nat
    requires Workable(b.d, s.page, m, cfg, force) && o == Authenticate(b.d, s.page, m, cfg, force)
    ensures var t := Stored(s, dev, o, svn);
            Authenticated(b, s, dev, force) == if o.active then Noted(t, Verified(dev, s.page, m, force)) else t
  {
    hide Workable, Authenticate, Sized, Stored, Noted, LaidOut, Of;
  }

  lemma StoredState(s: State, dev: Dev, o: Outcome, svn: nat, noted: bool, e: Event)
    ensures var side, t := Of(s, dev), Stored(s, dev, o, svn);
            var r := if noted then Noted(t, e) else t;
            && Of(r, dev) == side.(mem := o.mem, svn := svn, flags := side.flags.(recoveryFailed := o.recoveryFailed, allFailed := o.allFailed))
            && r.page == o.page && r.log == s.log + [Written(dev)] + (if noted then [e] else [])
            && Of(r, Other(dev)) == Of(s, Other(dev)) && r.mode == s.mode
  {
  }

  // ---------------------------------------------------------------- an update that takes effect

  // The staged capsule may proceed, can be used, and describes itself, and the recovery region that the flash
  // will have is good
  ghost predicate UpdateReady(b: Board, s: State, dev: Dev, i: Intent, c: seq<Word>) {
    var m, cfg, all := Of(s, dev).mem, b.Map(dev), AsksRecovery(i, dev) || i.dynamic;
    && Says(b, s, dev, i, Proceeds) && Staged(b, s, dev, i, c) && LaidOut(cfg, |m|)
    && Updatable(b.d, s.page, m, cfg, all) && ManifestMatches(b.d, s.page, c)
    && CapsuleValid(b.d, s.page, UpdatedImage(cfg, m, all), 1024 * cfg.recovery)
  }

  // T-1 work on a flash with such a capsule: the flash is as the capsule says, word for word; the update is kept
  // by the authentication that follows; the count of failed attempts starts over, a recovery update is due
  // exactly when one was asked for, and the request is gone
  lemma UpdateTakesEffect(b: Board, s: State, dev: Dev, c: seq<Word>)
    requires Sized(b, s) && s.mode == Running && !Of(s, dev).flags.requireWdt && (dev == Bmc ==> FirmwareOnly(s.bmc.intent))
    requires Asks(Of(s, dev).intent, dev) && UpdateReady(b, s, dev, Of(s, dev).intent, c)
    ensures var side, i, r := Of(s, dev), Of(s, dev).intent, OperateOn(b, s, dev, false);
            Updated(s, r, dev) && forall j: nat | j < |side.mem| :: WordUpdated(b, dev, c, i, side.mem, Of(r, dev).mem, j)
  {
    hide *;
    var i, t := Of(s, dev).intent, Acting(s, dev);
    UpdateThenAuthenticate(b, s, dev, false);
    var m, cfg, all := Of(s, dev).mem, b.Map(dev), AsksRecovery(i, dev) || i.dynamic;
    ActingKeeps(b, s, dev, i, c);
    ReadyParts(b, t, dev, i, c);
    SaysIs(b, t, dev, i, Proceeds);
    Proceeding(b, t, dev, i);
    StagedIs(b, t, dev, i, c);
    ActiveUpdateIs(b, t, dev, i);
    UpdatedImageIsValidIff(b.d, t.page, m, cfg, all);
    var f := FirmwareUpdate(b, t, dev, i);
    UpdateFacts(t, f, dev, i, Of(f, dev).mem, f.log);
    UpdatedIsGood(b, t, f, dev, i);
    GoodStays(b, f, dev);
    var r := OperateOn(b, s, dev, false);
    UpdatedSide(b, s, dev, f, r, (Of(f, dev).mem[1024 * cfg.recovery + 513] & 0xFF) as nat,
                f.log + [Written(dev), Verified(dev, f.page, Of(f, dev).mem, false)], Of(f, dev).mem, f.log);
    forall j: nat | j < |m| ensures WordUpdated(b, dev, c, i, m, Of(f, dev).mem, j) {
      OneWordUpdated(b, t, dev, i, c, j);
    }
  }

  // The capsule's word in a rebuilt page, by the manifest in the capsule
  ghost predicate WordUpdated(b: Board, dev: Dev, c: seq<Word>, i: Intent, m: Mem, r: Mem, j: nat) {
    var cfg, all := b.Map(dev), AsksRecovery(i, dev) || i.dynamic;
    && HasHeader(c) && HoldsManifest(c) && HoldsBody(c) && |r| == |m| && j < |m|
    && (Marked(c, all, cfg.stagingAddr, j / 1024) ==>
          r[j] == RebuiltBy(c, Parse(c[520..]), true, all, cfg.stagingAddr, cfg.pfm, j, m[j]))
  }

  // What is left besides the contents of the flash
  ghost predicate Updated(s: State, r: State, dev: Dev) {
    var side, next, i := Of(s, dev), Of(r, dev), Of(s, dev).intent;
    && r.mode == Running && r.page == s.page && Of(r, Other(dev)) == Of(s, Other(dev)) && r.provisioned == s.provisioned
    && r.cpldPending == s.cpldPending
    && next.intent == NONE && next.attempts == 0 && next.held == side.held && next.recoveries == side.recoveries
    && next.flags == side.flags.(pending := side.flags.pending || AsksRecovery(i, dev), recoveryFailed := false, allFailed := false)
    && r.booted == s.booted - (if dev == Bmc then {BmcPart} else {Me, Acm, Ibb, Obb})
    && r.armed == s.armed - (if dev == Bmc then {BmcTimer} else {MeTimer, AcmBiosTimer})
    && r.enabled == s.enabled + (if dev == Bmc then {BmcTimer} else {MeTimer, AcmBiosTimer})
  }

  lemma ActingKeeps(b: Board, s: State, dev: Dev, i: Intent, c: seq<Word>)
    requires Sized(b, s) && UpdateReady(b, s, dev, i, c) && s.mode == Running
    ensures var t := Acting(s, dev);
            UpdateReady(b, t, dev, i, c) && t.page == s.page && Of(t, dev).mem == Of(s, dev).mem && Sized(b, t) && t.mode == Running
  {
    ActingFits(b, s, dev);
    ActingSame(s, dev);
    ReadyAlike(b, s, Acting(s, dev), dev, i, c);
    hide *;
  }

  lemma ActingSame(s: State, dev: Dev)
    ensures var t := Acting(s, dev);
            Of(t, dev).mem == Of(s, dev).mem && t.page == s.page && t.pch.svn == s.pch.svn && t.bmc.svn == s.bmc.svn && t.mode == s.mode
  {
  }

  // What is ready depends on the flash, the provisioned data and the SVNs of the recovery images
  lemma ReadyAlike(b: Board, s: State, t: State, dev: Dev, i: Intent, c: seq<Word>)
    requires UpdateReady(b, s, dev, i, c)
    requires Of(t, dev).mem == Of(s, dev).mem && t.page == s.page && t.pch.svn == s.pch.svn && t.bmc.svn == s.bmc.svn
    ensures UpdateReady(b, t, dev, i, c)
  {
    ReadyParts(b, s, dev, i, c);
    SaysAlike(b, s, t, dev, i);
    StagedAlike(b, s, t, dev, i, c);
    hide Check, Updatable, ManifestMatches, CapsuleValid, UpdatedImage, CanUpdate, HoldsPayload, PayloadAt, BitsFor, Of, Says, Staged, LaidOut;
  }

  lemma SaysAlike(b: Board, s: State, t: State, dev: Dev, i: Intent)
    requires Says(b, s, dev, i, Proceeds)
    requires Of(t, dev).mem == Of(s, dev).mem && t.page == s.page && t.pch.svn == s.pch.svn && t.bmc.svn == s.bmc.svn
    ensures Says(b, t, dev, i, Proceeds)
  {
    hide Check, BitsFor, Of;
  }

  lemma StagedAlike(b: Board, s: State, t: State, dev: Dev, i: Intent, c: seq<Word>)
    requires Staged(b, s, dev, i, c) && Of(t, dev).mem == Of(s, dev).mem
    ensures Staged(b, t, dev, i, c)
  {
    hide Of, CanUpdate, HoldsPayload, PayloadAt;
  }

  lemma ReadyParts(b: Board, s: State, dev: Dev, i: Intent, c: seq<Word>)
    requires UpdateReady(b, s, dev, i, c)
    ensures var m, cfg, all := Of(s, dev).mem, b.Map(dev), AsksRecovery(i, dev) || i.dynamic;
            && IsPage(s.page) && LaidOut(cfg, |m|) && Updatable(b.d, s.page, m, cfg, all) && ManifestMatches(b.d, s.page, c)
            && Says(b, s, dev, i, Proceeds) && Staged(b, s, dev, i, c) && CanUpdate(cfg, m, all)
            && CapsuleValid(b.d, s.page, UpdatedImage(cfg, m, all), 1024 * cfg.recovery)
  {
    hide Check, Updatable, ManifestMatches, CapsuleValid, UpdatedImage, CanUpdate, HoldsPayload, PayloadAt, BitsFor;
  }

  lemma UpdateFacts(t: State, f: State, dev: Dev, i: Intent, mem: Mem, log: seq<Event>)
    requires f == Put(t, dev, Of(t, dev).(mem := mem, attempts := 0,
                                          flags := Of(t, dev).flags.(pending := Of(t, dev).flags.pending || AsksRecovery(i, dev))))
                    .(enabled := t.enabled + (if dev == Bmc then {BmcTimer} else {MeTimer, AcmBiosTimer}), log := log)
    ensures f.page == t.page && f.mode == t.mode && Of(f, dev).mem == mem
  {
  }

  lemma UpdatedIsGood(b: Board, t: State, f: State, dev: Dev, i: Intent)
    requires var m, cfg, all := Of(t, dev).mem, b.Map(dev), AsksRecovery(i, dev) || i.dynamic;
             && IsPage(t.page) && LaidOut(cfg, |m|) && CanUpdate(cfg, m, all) && Of(f, dev).mem == UpdatedImage(cfg, m, all)
             && CapsuleValid(b.d, t.page, UpdatedImage(cfg, m, all), 1024 * cfg.recovery)
             && ActiveValid(b.d, t.page, UpdatedImage(cfg, m, all), cfg.Active())
    requires f.page == t.page && t.mode == Running && f.mode == t.mode
    ensures Good(b, f, dev) && f.mode == Running
  {
    hide CapsuleValid, ActiveValid, CanUpdate, UpdatedImage;
  }

  lemma UpdatedSide(b: Board, s: State, dev: Dev, f: State, r: State, svn: nat, log: seq<Event>, mem: Mem, before: seq<Event>)
    requires var t, side := Acting(s, dev), Of(s, dev);
             f == Put(t, dev, Of(t, dev).(mem := mem, attempts := 0,
                                          flags := Of(t, dev).flags.(pending := Of(t, dev).flags.pending || AsksRecovery(side.intent, dev))))
                    .(enabled := t.enabled + (if dev == Bmc then {BmcTimer} else {MeTimer, AcmBiosTimer}), log := before)
    requires r == Put(f, dev, Of(f, dev).(svn := svn, flags := Of(f, dev).flags.(recoveryFailed := false, allFailed := false)))
                    .(log := log)
    requires s.mode == Running
    ensures Updated(s, r, dev) && Of(r, dev).mem == Of(f, dev).mem
  {
  }

  lemma OneWordUpdated(b: Board, t: State, dev: Dev, i: Intent, c: seq<Word>, j: nat)
    requires Sized(b, t) && Says(b, t, dev, i, Proceeds) && Staged(b, t, dev, i, c) && j < |Of(t, dev).mem|
    ensures WordUpdated(b, dev, c, i, Of(t, dev).mem, Of(FirmwareUpdate(b, t, dev, i), dev).mem, j)
  {
    hide *;
    SaysIs(b, t, dev, i, Proceeds);
    Proceeding(b, t, dev, i);
    StagedIs(b, t, dev, i, c);
    ActiveUpdateIs(b, t, dev, i);
    UsableHere(b.Map(dev), Of(t, dev).mem, AsksRecovery(i, dev) || i.dynamic, c);
    HasBodyToo(c);
    if Marked(c, AsksRecovery(i, dev) || i.dynamic, b.Map(dev).stagingAddr, j / 1024) {
      FirmwareUpdateByWords(b, t, dev, i, c, j);
    }
    IsUpdated(b, dev, c, i, Of(t, dev).mem, Of(FirmwareUpdate(b, t, dev, i), dev).mem, j);
  }

  lemma HasBodyToo(c: seq<Word>)
    requires Readable(c)
    ensures HoldsBody(c) && |c| >= 520 && Terminated(c[520..])
  {
  }

  lemma IsUpdated(b: Board, dev: Dev, c: seq<Word>, i: Intent, m: Mem, r: Mem, j: nat)
    requires HasHeader(c) && HoldsManifest(c) && HoldsBody(c) && |r| == |m| && j < |m| && |c| >= 520 && Terminated(c[520..])
    requires var cfg, all := b.Map(dev), AsksRecovery(i, dev) || i.dynamic;
             Marked(c, all, cfg.stagingAddr, j / 1024) ==>
               r[j] == RebuiltBy(c, Parse(c[520..]), true, all, cfg.stagingAddr, cfg.pfm, j, m[j])
    ensures WordUpdated(b, dev, c, i, m, r, j)
  {
    hide Marked, RebuiltBy, HasHeader, HoldsManifest, HoldsBody, AsksRecovery;
  }

  // ---------------------------------------------------------------- an active update of the BMC

  // An active update of the BMC from its intent on: the BMC alone is reset, leaves reset with its flash as the
  // staged capsule says, word for word, and is watched; the request is gone, and nothing of the PCH changes
  lemma BmcUpdateRuns(b: Board, s: State, e: Pins, c: seq<Word>)
    requires Sized(b, s) && s.mode == Running && s.provisioned && !e.forceBmc
    requires s.bmc.intent == NONE.(bmcActive := true, dynamic := s.bmc.intent.dynamic)
    requires s.bmc.attempts < 3 && !s.bmc.flags.recoveryFailed && !s.bmc.flags.requireWdt && UpdateReady(b, s, Bmc, s.bmc.intent, c)
    ensures var r := BmcIntent(b, s, e);
            && r.mode == Running && !r.bmc.held && r.pch == s.pch && r.page == s.page && r.bmc.intent == NONE && r.bmc.attempts == 0
            && r.bmc.flags == s.bmc.flags.(recoveryFailed := false, allFailed := false)
            && (BmcTimer in r.armed <==> !s.pch.flags.allFailed) && BmcTimer in r.enabled && r.booted == s.booted - {BmcPart}
            && forall j: nat | j < |s.bmc.mem| :: WordUpdated(b, Bmc, c, s.bmc.intent, s.bmc.mem, r.bmc.mem, j)
  {
    hide *;
    var t, i := Hold(s, Bmc), s.bmc.intent;
    Sides(b, s);
    Sides(b, t);
    OnlyBmcActive(s, i);
    BmcIntentIs(b, s, e);
    BmcOnlyResetIs(b, s, false);
    HeldSame(s, Bmc);
    ReadyAlike(b, s, t, Bmc, i, c);
    UpdateTakesEffect(b, t, Bmc, c);
    BmcLeaves(s, OperateOn(b, t, Bmc, false));
  }

  lemma OnlyBmcActive(s: State, i: Intent)
    requires i == s.bmc.intent == NONE.(bmcActive := true, dynamic := i.dynamic) && s.bmc.attempts < 3 && !s.bmc.flags.recoveryFailed
    ensures i.Any() && !i.atReset && BmcLetThrough(s) && BmcAsks(s) == s && Asks(i, Bmc) && FirmwareOnly(i)
    ensures !i.bmcRecovery && !i.cpldActive && !i.cpldRecovery && !i.pchActive && !i.pchRecovery
  {
  }

  lemma HeldSame(s: State, dev: Dev)
    ensures var t := Hold(s, dev);
            && Of(t, dev) == Of(s, dev).(held := true) && Of(t, Other(dev)) == Of(s, Other(dev)) && t.mode == s.mode && t.page == s.page
            && t.bmc.svn == s.bmc.svn && t.pch.svn == s.pch.svn && Of(t, dev).mem == Of(s, dev).mem && Of(t, dev).intent == Of(s, dev).intent
            && Of(t, dev).flags == Of(s, dev).flags
  {
  }

  lemma BmcLeaves(s: State, x: State)
    requires Updated(Hold(s, Bmc), x, Bmc) && !s.bmc.intent.bmcRecovery
    ensures var r := EnterT0BmcOnly(x);
            && r.mode == Running && !r.bmc.held && r.pch == s.pch && r.page == s.page && r.bmc.intent == NONE && r.bmc.attempts == 0
            && r.bmc.flags == s.bmc.flags.(recoveryFailed := false, allFailed := false)
            && (BmcTimer in r.armed <==> !s.pch.flags.allFailed) && BmcTimer in r.enabled && r.booted == s.booted - {BmcPart}
            && r.bmc.mem == x.bmc.mem && x.mode == Running && Of(x, Bmc) == x.bmc
  {
  }

  // ---------------------------------------------------------------- an update of the PCH through the BMC flash

  // The PCH flash with the capsule in its staging region
  ghost predicate HandedOn(b: Board, s: State, c: seq<Word>, mem: Mem) {
    && HoldsPayload(s.bmc.mem, b.StagedPch()) && c == PayloadAt(s.bmc.mem, b.StagedPch())
    && CanHandOver(s.pch.mem, s.bmc.mem, b.StagedPch(), b.pch.staging)
    && mem == CopiedTo(s.pch.mem, s.bmc.mem, b.StagedPch(), b.pch.staging)
  }

  // The capsule in the BMC flash may proceed; with it in place, the PCH flash can be updated and will be good
  ghost predicate PchReady(b: Board, s: State, c: seq<Word>, mem: Mem) {
    var i, cfg := s.bmc.intent, b.pch;
    var all := AsksRecovery(i, Pch) || i.dynamic;
    && IsPage(s.page) && b.StagedPch() + 514 <= |s.bmc.mem| && LaidOut(cfg, |mem|)
    && Check(b.d, s.page, s.bmc.mem, b.StagedPch(), BitsFor(i, Pch), s.pch.svn, s.bmc.svn) == Proceeds && HandedOn(b, s, c, mem)
    && Updatable(b.d, s.page, mem, cfg, all) && ManifestMatches(b.d, s.page, c)
    && CapsuleValid(b.d, s.page, UpdatedImage(cfg, mem, all), 1024 * cfg.recovery)
  }

  // A payload that may proceed may do so wherever it lies, whatever the SVN of the BMC's recovery image is
  lemma ProceedsThere(d: Device, u: Mem, m: Mem, at: nat, r: Mem, to: nat, c: seq<Word>, bits: Word, pchSvn: nat, bmcSvn: nat, other: nat)
    requires IsPage(u) && at + 514 <= |m| && to + 514 <= |r| && HoldsPayload(m, at) && HoldsPayload(r, to)
    requires PayloadAt(m, at) == c && PayloadAt(r, to) == c && Readable(c) && AsksPch(bits)
    requires Check(d, u, m, at, bits, pchSvn, bmcSvn) == Proceeds
    ensures Check(d, u, r, to, bits, pchSvn, other) == Proceeds
  {
    hide *;
    VerdictByWords(d, u, m, at, bits, pchSvn, bmcSvn);
    VerdictByWords(d, u, r, to, bits, pchSvn, other);
    AsksOne(bits);
    ReadableParts(c);
    TypeThere(m, at, c);
    TypeThere(r, to, c);
    SameValid(d, u, m, at, r, to, c);
    GoodThere(d, u, m, at, r, to, c, bits & 2 != 0, pchSvn);
  }

  lemma AsksOne(bits: Word)
    requires AsksPch(bits)
    ensures !AsksCpld(bits) && !AsksBmc(bits)
  {
  }

  lemma ReadableParts(c: seq<Word>)
    requires Readable(c)
    ensures HasHeader(c) && HoldsManifest(c) && |c| >= 544
  {
  }

  lemma TypeThere(m: Mem, at: nat, c: seq<Word>)
    requires HoldsPayload(m, at) && PayloadAt(m, at) == c && |c| >= 544
    ensures at + 544 <= |m| && c == m[at..at + |c|] && at + |c| <= |m|
    ensures m[at + 2] == c[2] && m[at + 513] == c[513] && m[at + 257] == c[257]
  {
  }

  lemma SameValid(d: Device, u: Mem, m: Mem, at: nat, r: Mem, to: nat, c: seq<Word>)
    requires IsPage(u) && HoldsPayload(m, at) && HoldsPayload(r, to) && PayloadAt(m, at) == c && PayloadAt(r, to) == c
    ensures ValidAt(d, u, m, at) <==> ValidAt(d, u, r, to)
  {
    hide SignatureValid, PayloadAt, HoldsPayload;
  }

  lemma GoodThere(d: Device, u: Mem, m: Mem, at: nat, r: Mem, to: nat, c: seq<Word>, recovery: bool, svn: nat)
    requires IsPage(u) && HasHeader(c) && HoldsManifest(c) && |c| >= 544 && at + 514 <= |m| && to + 514 <= |r|
    requires at + |c| <= |m| && to + |c| <= |r| && c == m[at..at + |c|] && c == r[to..to + |c|]
    requires GoodFirmware(d, u, m, at, PchPolicy, recovery, svn)
    ensures GoodFirmware(d, u, r, to, PchPolicy, recovery, svn)
  {
    InnerThere(d, u, m, at, c);
    InnerThere(d, u, r, to, c);
    HeaderThere(m, at, c);
    HeaderThere(r, to, c);
    hide ValidAt, UfmSvn, HasHeader, HoldsManifest, SignatureValid, SignedPfm;
  }

  lemma InnerThere(d: Device, u: Mem, m: Mem, at: nat, c: seq<Word>)
    requires IsPage(u) && HoldsManifest(c) && at + |c| <= |m| && c == m[at..at + |c|]
    ensures ValidAt(d, u, m, at + 256) <==> SignatureValid(d, u, SignedPfm(c))
  {
    assert c[257] == m[at + 257];
    assert SignedPayloadSize(c, 256) == SignedPayloadSize(m, at + 256);
    InnerWords(m, at, c, SignedPayloadSize(c, 256) / 4);
    hide SignatureValid;
  }

  lemma InnerWords(m: Mem, at: nat, c: seq<Word>, n: nat)
    requires at + |c| <= |m| && c == m[at..at + |c|] && 256 + n <= |c|
    ensures m[at + 256..at + 256 + n] == c[256..256 + n]
  {
    var a, x := m[at + 256..at + 256 + n], c[256..256 + n];
    forall k | 0 <= k < n ensures a[k] == x[k] {
      assert a[k] == m[at + 256 + k] && x[k] == c[256 + k];
    }
  }

  lemma HeaderThere(m: Mem, at: nat, c: seq<Word>)
    requires HasHeader(c) && at + |c| <= |m| && c == m[at..at + |c|] && |c| >= 544
    ensures var pbc, q := 512 + c[257] as nat / 4, at + 512 + m[at + 257] as nat / 4;
            && pbc + 32 <= |c| && q + 32 <= |m| && q == at + pbc && m[at + 513] == c[513]
            && m[q] == c[pbc] && m[q + 1] == c[pbc + 1] && m[q + 2] == c[pbc + 2] && m[q + 5] == c[pbc + 5]
  {
    assert m[at + 257] == c[257];
  }

  // What the PCH is asked for: its bits of the BMC's intent, and the dynamic bit
  function AskedOfPch(i: Intent): Intent { NONE.(pchActive := i.pchActive, pchRecovery := i.pchRecovery, dynamic := i.dynamic) }

  // A PCH capsule that may proceed is handed over: the words of the capsule are in the PCH staging region, the
  // rest of its last page is erased, all else in that flash is as before, and the PCH has the bits for it
  lemma HandsOver(b: Board, s: State, c: seq<Word>, mem: Mem)
    requires Sized(b, s) && Asks(s.bmc.intent, Pch) && PchReady(b, s, c, mem)
    requires s.pch.intent == NONE && !s.pch.flags.recoveryFailed
    ensures PrepForOob(b, s)
         == s.(pch := s.pch.(mem := mem, intent := AskedOfPch(s.bmc.intent)), log := s.log + [Written(Pch)])
  {
    StagingFits(b, s, Bmc);
    Sides(b, s);
    ExamineIs(b, s, Bmc, b.StagedPch(), s.bmc.intent.OnlyPchFw());
    BitsAre(s.bmc.intent, Pch);
    AskedIs(s.bmc.intent, s.pch, mem);
    hide Sized, Check, Examine, BitsFor, CanHandOver, CopiedTo, Updatable, ManifestMatches, CapsuleValid, UpdatedImage, HandedOver,
      HoldsPayload, PayloadAt, LaidOut, AskedOfPch, Intent.OnlyPchFw, AsksRecovery;
  }

  lemma AskedIs(i: Intent, side: Side, mem: Mem)
    requires side.intent == NONE && !side.flags.recoveryFailed
    ensures HandedOver(i, side, mem) == side.(mem := mem, intent := AskedOfPch(i))
  {
  }

  lemma NothingDue(b: Board, s: State)
    requires Sized(b, s) && !Pending(s) && !s.bmc.flags.readyCpld && !s.pch.flags.readyCpld
    ensures ProcessBoth(b, s) == s
  {
    hide Sized, Promotable, CopyFits, Promoted;
  }

  // What T-1 makes of such a request when the BMC flash is good and nothing else is asked for or due
  lemma PchUpdateInT1(b: Board, s: State, e: Pins, c: seq<Word>, mem: Mem)
    requires Sized(b, s) && s.mode == Running && OutOfBand(b, s, e, c, mem)
    ensures var i, r := s.bmc.intent, Tmin1(b, s, e);
            && r.mode == Running && r.page == s.page && r.bmc.mem == s.bmc.mem && r.bmc.intent == NONE && r.pch.intent == NONE
            && r.provisioned == s.provisioned && r.bmc.held == s.bmc.held && r.pch.held == s.pch.held && !r.bmc.flags.allFailed
            && !r.bmc.flags.recoveryFailed && !r.pch.flags.allFailed && !r.pch.flags.recoveryFailed
            && (r.pch.flags.pending <==> i.pchRecovery) && !r.bmc.flags.pending
            && forall j: nat | j < |s.pch.mem| :: WordUpdated(b, Pch, c, i, mem, r.pch.mem, j)
  {
    hide *;
    Sides(b, s);
    var i := s.bmc.intent;
    OutOfBandParts(b, s, e, c, mem);
    Tmin1Is(b, s, e);
    HandsOver(b, s, c, mem);
    var t1 := PrepForOob(b, s);
    HandedState(b, s, t1, mem, i);
    NothingDue(b, t1);
    PreparedIs(b, s);
    OperateOnBothIs(b, t1, e);
    Sides(b, t1);
    UpdateThenAuthenticate(b, t1, Bmc, false);
    var q := Acting(t1, Bmc);
    ActingOnBmc(b, s, t1, q, mem, i);
    Sides(b, q);
    GoodStays(b, q, Bmc);
    var t2 := OperateOn(b, t1, Bmc, false);
    BmcIsGood(s, t1, q, t2, b, (q.bmc.mem[1024 * b.bmc.recovery + 513] & 0xFF) as nat, q.log + [Written(Bmc), Verified(Bmc, q.page, q.bmc.mem, false)]);
    Sides(b, t2);
    HandedReady(b, s, t2, c, mem, i);
    UpdateTakesEffect(b, t2, Pch, c);
    var r := OperateOn(b, t2, Pch, false);
    PchIsUpdated(s, t2, r, i);
    forall j: nat | j < |s.pch.mem| ensures WordUpdated(b, Pch, c, i, mem, r.pch.mem, j) {
      SameSize(b, s, c, mem);
      AskedAlike(b, c, i, mem, Of(r, Pch).mem, j);
    }
  }

  // Only an update of the PCH is asked for, through the BMC flash; nothing else is due, the BMC flash is good, no
  // recovery is forced, and the protect-in-transit check passes
  ghost predicate OutOfBand(b: Board, s: State, e: Pins, c: seq<Word>, mem: Mem) {
    var i := s.bmc.intent;
    && Asks(i, Pch) && !Asks(i, Bmc) && FirmwareOnly(i) && s.pch.intent == NONE && PchReady(b, s, c, mem) && Good(b, s, Bmc)
    && Quiet(s.bmc) && Quiet(s.pch) && !s.pch.flags.recoveryFailed && e == Pins(true, false, false)
  }

  // No promotion is due and no recovery is requested
  predicate Quiet(side: Side) { !side.flags.pending && !side.flags.readyCpld && !side.flags.requireWdt }

  lemma OutOfBandParts(b: Board, s: State, e: Pins, c: seq<Word>, mem: Mem)
    requires OutOfBand(b, s, e, c, mem)
    ensures var i := s.bmc.intent;
            && Asks(i, Pch) && !Asks(i, Bmc) && FirmwareOnly(i) && s.pch.intent == NONE && PchReady(b, s, c, mem) && Good(b, s, Bmc)
            && !s.pch.flags.recoveryFailed && e.pitPasses && !e.forceBmc && !e.forcePch && Quiet(s.bmc) && Quiet(s.pch)
  {
    hide PchReady, Good, FirmwareOnly, Asks, Quiet;
  }

  lemma HandedState(b: Board, s: State, t1: State, mem: Mem, i: Intent)
    requires t1 == s.(pch := s.pch.(mem := mem, intent := AskedOfPch(i)), log := s.log + [Written(Pch)])
    requires s.mode == Running && Quiet(s.bmc) && Quiet(s.pch)
    ensures !Pending(t1) && !t1.bmc.flags.readyCpld && !t1.pch.flags.readyCpld && t1.mode == Running && t1.bmc == s.bmc
    ensures t1.pch.flags == s.pch.flags && t1.pch.mem == mem && t1.pch.intent == AskedOfPch(i) && !t1.bmc.flags.requireWdt && t1.page == s.page
    ensures t1.pch.svn == s.pch.svn && t1.pch.held == s.pch.held && t1.provisioned == s.provisioned
    ensures Quiet(t1.pch) && !t1.pch.flags.requireWdt
  {
  }

  lemma PreparedIs(b: Board, s: State)
    requires Sized(b, s)
    ensures Prepared(b, s) == var t := PrepForOob(b, s); if t.mode == Running then ProcessBoth(b, t) else t
  {
    hide Sized, PrepForOob, ProcessBoth;
  }

  lemma ActingOnBmc(b: Board, s: State, t1: State, q: State, mem: Mem, i: Intent)
    requires q == Acting(t1, Bmc) && t1.bmc == s.bmc && t1.page == s.page && Good(b, s, Bmc)
    ensures Good(b, q, Bmc) && q.pch == t1.pch && q.page == s.page && q.bmc.mem == s.bmc.mem && q.mode == t1.mode
  {
    hide ActiveValid, CapsuleValid, LaidOut;
  }

  lemma BmcIsGood(s: State, t1: State, q: State, t2: State, b: Board, svn: nat, log: seq<Event>)
    requires q == Acting(t1, Bmc) && t1.bmc == s.bmc && t1.page == s.page && Quiet(s.bmc) && t1.provisioned == s.provisioned
    requires t2 == Put(q, Bmc, q.bmc.(svn := svn, flags := q.bmc.flags.(recoveryFailed := false, allFailed := false))).(log := log)
    ensures t2.mode == t1.mode && t2.pch == t1.pch && t2.page == s.page && t2.bmc.mem == s.bmc.mem && t2.bmc.intent == NONE
    ensures t2.bmc.held == s.bmc.held && !t2.bmc.flags.allFailed && !t2.bmc.flags.recoveryFailed && !t2.bmc.flags.pending
    ensures t2.provisioned == s.provisioned
  {
  }

  lemma HandedReady(b: Board, s: State, t2: State, c: seq<Word>, mem: Mem, i: Intent)
    requires Sized(b, t2) && PchReady(b, s, c, mem) && i == s.bmc.intent && Asks(i, Pch)
    requires t2.page == s.page && t2.pch.mem == mem && t2.pch.svn == s.pch.svn && t2.pch.intent == AskedOfPch(i)
    ensures UpdateReady(b, t2, Pch, t2.pch.intent, c) && Asks(t2.pch.intent, Pch)
  {
    hide *;
    PchReadyParts(b, s, c, mem, i);
    AskedBitsAre(i);
    StagingFits(b, t2, Pch);
    Sides(b, t2);
    var cfg, all := b.pch, AsksRecovery(i, Pch) || i.dynamic;
    UpdatableParts(b.d, s.page, mem, cfg, all);
    CopiedIs(b, s, c, mem);
    ProceedsThere(b.d, s.page, s.bmc.mem, b.StagedPch(), mem, cfg.Staging(), c, BitsFor(i, Pch), s.pch.svn, s.bmc.svn, t2.bmc.svn);
    ReadyThere(b, t2, c, t2.pch.intent, all);
  }

  lemma CopiedIs(b: Board, s: State, c: seq<Word>, mem: Mem)
    requires HandedOn(b, s, c, mem) && IsPage(s.page) && b.StagedPch() + 514 <= |s.bmc.mem| && ValidAt(b.d, s.page, s.bmc.mem, b.StagedPch())
    ensures HoldsPayload(mem, b.pch.Staging()) && PayloadAt(mem, b.pch.Staging()) == c
  {
    assert b.pch.Staging() == 1024 * b.pch.staging && b.StagedPch() + 1 < |s.bmc.mem|;
    hide CanHandOver, CopiedTo, ValidAt, HoldsPayload, PayloadAt;
    CopiedToHolds(b.d, s.page, s.pch.mem, s.bmc.mem, b.StagedPch(), b.pch.staging);
  }

  lemma PchReadyParts(b: Board, s: State, c: seq<Word>, mem: Mem, i: Intent)
    requires PchReady(b, s, c, mem) && i == s.bmc.intent
    ensures var cfg, all := b.pch, AsksRecovery(i, Pch) || i.dynamic;
            && IsPage(s.page) && b.StagedPch() + 514 <= |s.bmc.mem| && LaidOut(cfg, |mem|) && HandedOn(b, s, c, mem)
            && HoldsPayload(s.bmc.mem, b.StagedPch()) && PayloadAt(s.bmc.mem, b.StagedPch()) == c
            && Check(b.d, s.page, s.bmc.mem, b.StagedPch(), BitsFor(i, Pch), s.pch.svn, s.bmc.svn) == Proceeds
            && ValidAt(b.d, s.page, s.bmc.mem, b.StagedPch())
            && Updatable(b.d, s.page, mem, cfg, all) && ManifestMatches(b.d, s.page, c)
            && CanUpdate(cfg, mem, all) && CapsuleValid(b.d, s.page, UpdatedImage(cfg, mem, all), 1024 * cfg.recovery)
  {
    VerdictByWords(b.d, s.page, s.bmc.mem, b.StagedPch(), BitsFor(i, Pch), s.pch.svn, s.bmc.svn);
    hide Check, Updatable, ManifestMatches, CapsuleValid, UpdatedImage, CanUpdate, HoldsPayload, PayloadAt, BitsFor, ValidAt, CanHandOver, CopiedTo,
      LaidOut, AsksRecovery, GoodFirmware, UfmSvn;
  }

  lemma AskedBitsAre(i: Intent)
    requires Asks(i, Pch)
    ensures AsksPch(BitsFor(i, Pch)) && BitsFor(AskedOfPch(i), Pch) == BitsFor(i, Pch) && Asks(AskedOfPch(i), Pch)
    ensures AsksRecovery(AskedOfPch(i), Pch) == AsksRecovery(i, Pch) && AskedOfPch(i).dynamic == i.dynamic
  {
  }

  lemma ReadyThere(b: Board, t: State, c: seq<Word>, i: Intent, all: bool)
    requires var m, cfg := t.pch.mem, b.pch;
             && IsPage(t.page) && cfg.Staging() + 514 <= |m| && LaidOut(cfg, |m|) && all == (AsksRecovery(i, Pch) || i.dynamic)
             && Check(b.d, t.page, m, cfg.Staging(), BitsFor(i, Pch), t.pch.svn, t.bmc.svn) == Proceeds
             && HoldsPayload(m, cfg.Staging()) && PayloadAt(m, cfg.Staging()) == c
             && Updatable(b.d, t.page, m, cfg, all) && ManifestMatches(b.d, t.page, c)
             && CanUpdate(cfg, m, all) && CapsuleValid(b.d, t.page, UpdatedImage(cfg, m, all), 1024 * cfg.recovery)
    ensures UpdateReady(b, t, Pch, i, c)
  {
    assert b.pch.Staging() == 1024 * b.pch.staging;
    hide Check, Updatable, ManifestMatches, CapsuleValid, UpdatedImage, CanUpdate, HoldsPayload, PayloadAt, BitsFor, LaidOut, AsksRecovery;
  }

  lemma PchIsUpdated(s: State, t2: State, r: State, i: Intent)
    requires Updated(t2, r, Pch) && t2.pch.intent == AskedOfPch(i) && Quiet(t2.pch)
    ensures r.mode == Running && r.page == t2.page && r.bmc == t2.bmc && r.pch.intent == NONE && r.provisioned == t2.provisioned
    ensures r.pch.held == t2.pch.held && !r.pch.flags.allFailed && !r.pch.flags.recoveryFailed && (r.pch.flags.pending <==> i.pchRecovery)
    ensures Of(r, Pch) == r.pch && Of(t2, Pch) == t2.pch
  {
  }

  lemma SameSize(b: Board, s: State, c: seq<Word>, mem: Mem)
    requires PchReady(b, s, c, mem)
    ensures |mem| == |s.pch.mem|
  {
    hide Check, Updatable, ManifestMatches, CapsuleValid, UpdatedImage, CanHandOver, CopiedTo, LaidOut, BitsFor, HoldsPayload, PayloadAt;
  }

  lemma AskedAlike(b: Board, c: seq<Word>, i: Intent, m: Mem, r: Mem, j: nat)
    requires WordUpdated(b, Pch, c, AskedOfPch(i), m, r, j)
    ensures WordUpdated(b, Pch, c, i, m, r, j)
  {
    assert (AsksRecovery(AskedOfPch(i), Pch) || AskedOfPch(i).dynamic) == (AsksRecovery(i, Pch) || i.dynamic);
    hide RebuiltBy, Marked, HasHeader, HoldsManifest, HoldsBody, AsksRecovery;
  }

  // An update of the PCH through the BMC flash, from the intent on: the whole platform is reset; the PCH leaves
  // reset with the words of the capsule wherever its manifest says so, over a flash in which the capsule lies in
  // the staging region; the BMC leaves reset with its flash as it was; the request is gone, and a recovery update
  // of the PCH is due exactly when it was asked for
  lemma PchUpdateRuns(b: Board, s: State, e: Pins, c: seq<Word>, mem: Mem)
    requires Sized(b, s) && s.mode == Running && s.provisioned && OutOfBand(b, s, e, c, mem)
    requires s.bmc.attempts < 3 && !s.bmc.intent.atReset
    ensures var i, r := s.bmc.intent, BmcIntent(b, s, e);
            && r.mode == Running && !r.bmc.held && !r.pch.held && r.page == s.page && r.bmc.mem == s.bmc.mem
            && r.bmc.intent == NONE && r.pch.intent == NONE && (r.pch.flags.pending <==> i.pchRecovery) && !r.bmc.flags.pending
            && (forall j: nat | j < |s.pch.mem| :: WordUpdated(b, Pch, c, i, mem, r.pch.mem, j))
  {
    hide *;
    OutOfBandParts(b, s, e, c, mem);
    var i, t := s.bmc.intent, HoldBoth(s);
    PchBitsPass(s, i);
    BmcIntentIs(b, s, e);
    PlatformResetIs(b, s, e);
    BothSame(s);
    OutOfBandAlike(b, s, t, e, c, mem);
    PchUpdateInT1(b, t, e, c, mem);
    BothLeave(Tmin1(b, t, e));
  }

  lemma PchBitsPass(s: State, i: Intent)
    requires i == s.bmc.intent && Asks(i, Pch) && !Asks(i, Bmc) && FirmwareOnly(i) && s.bmc.attempts < 3 && !s.pch.flags.recoveryFailed
    ensures i.Any() && BmcLetThrough(s) && BmcAsks(s) == s && (i.pchActive || i.pchRecovery)
  {
  }

  lemma BothSame(s: State)
    ensures var t := HoldBoth(s);
            && t.bmc == s.bmc.(held := true) && t.pch == s.pch.(held := true) && t.page == s.page && t.mode == s.mode
            && t.provisioned == s.provisioned && t.pch.mem == s.pch.mem && t.bmc.mem == s.bmc.mem && t.bmc.intent == s.bmc.intent
            && t.bmc.held && t.pch.held && t.cpldPending == s.cpldPending
  {
  }

  lemma OutOfBandAlike(b: Board, s: State, t: State, e: Pins, c: seq<Word>, mem: Mem)
    requires OutOfBand(b, s, e, c, mem) && t.bmc == s.bmc.(held := true) && t.pch == s.pch.(held := true) && t.page == s.page
    ensures OutOfBand(b, t, e, c, mem)
  {
    OutOfBandParts(b, s, e, c, mem);
    hide *;
    HandsAlike(b, s, t, c, mem);
    HeldAlike(b, s, t, e);
    IsOutOfBand(b, t, e, c, mem);
  }

  lemma HeldAlike(b: Board, s: State, t: State, e: Pins)
    requires t.bmc == s.bmc.(held := true) && t.pch == s.pch.(held := true) && t.page == s.page && Good(b, s, Bmc)
    ensures t.bmc.intent == s.bmc.intent && t.pch.intent == s.pch.intent && t.pch.flags == s.pch.flags && Good(b, t, Bmc)
    ensures (Quiet(t.bmc) <==> Quiet(s.bmc)) && (Quiet(t.pch) <==> Quiet(s.pch))
  {
    hide ActiveValid, CapsuleValid, LaidOut;
  }

  lemma IsOutOfBand(b: Board, t: State, e: Pins, c: seq<Word>, mem: Mem)
    requires var i := t.bmc.intent;
             && Asks(i, Pch) && !Asks(i, Bmc) && FirmwareOnly(i) && t.pch.intent == NONE && PchReady(b, t, c, mem) && Good(b, t, Bmc)
             && !t.pch.flags.recoveryFailed && e.pitPasses && !e.forceBmc && !e.forcePch && Quiet(t.bmc) && Quiet(t.pch)
    ensures OutOfBand(b, t, e, c, mem)
  {
    hide PchReady, Good, FirmwareOnly, Asks, Quiet;
  }

  lemma HandsAlike(b: Board, s: State, t: State, c: seq<Word>, mem: Mem)
    requires PchReady(b, s, c, mem) && t.bmc == s.bmc.(held := true) && t.pch == s.pch.(held := true) && t.page == s.page
    ensures PchReady(b, t, c, mem)
  {
    hide Check, Updatable, ManifestMatches, CapsuleValid, UpdatedImage, CanHandOver, CopiedTo, LaidOut, BitsFor, HoldsPayload, PayloadAt,
      AsksRecovery;
  }

  lemma BothLeave(x: State)
    requires x.bmc.held && x.pch.held && x.mode == Running && !x.bmc.flags.allFailed && !x.pch.flags.allFailed
    ensures var r := EnterT0(x);
            && r.mode == Running && !r.bmc.held && !r.pch.held && r.page == x.page && r.bmc.mem == x.bmc.mem && r.pch.mem == x.pch.mem
            && r.bmc.intent == x.bmc.intent && r.pch.intent == x.pch.intent && r.bmc.flags == x.bmc.flags && r.pch.flags == x.pch.flags
  {
  }

  // ---------------------------------------------------------------- a recovery update after the next boot

  // A firmware recovery update of one flash is due and can be carried out: the capsule that the active image was
  // rebuilt from is in the staging region, and the recovery region will be good with it. Nothing else is asked
  // for or due, and the other flash is good.
  ghost predicate PromotionReady(b: Board, s: State, dev: Dev, c: seq<Word>) {
    var m, cfg, side := Of(s, dev).mem, b.Map(dev), Of(s, dev);
    && IsPage(s.page) && LaidOut(cfg, |m|) && ValidAt(b.d, s.page, m, cfg.Staging()) && HashesMatch(m, cfg)
    && HoldsPayload(m, cfg.Staging()) && c == PayloadAt(m, cfg.Staging()) && CopyFits(m, cfg)
    && side.flags.pending && !side.flags.readyCpld && !side.flags.requireWdt && Quiet(Of(s, Other(dev)))
    && s.bmc.intent == NONE && s.pch.intent == NONE
    && GoodWith(b, SvnWritten(s.page, cfg.policy, (m[cfg.Staging() + 513] & 0xFF) as nat), Promoted(m, cfg), dev)
    && GoodWith(b, SvnWritten(s.page, cfg.policy, (m[cfg.Staging() + 513] & 0xFF) as nat), Of(s, Other(dev)).mem, Other(dev))
  }

  // Both regions of a flash with these contents are good, going by these provisioned data
  ghost predicate GoodWith(b: Board, u: Mem, m: Mem, dev: Dev) {
    var cfg := b.Map(dev);
    IsPage(u) && LaidOut(cfg, |m|) && ActiveValid(b.d, u, m, 1024 * cfg.pfm) && CapsuleValid(b.d, u, m, 1024 * cfg.recovery)
  }

  lemma GoodIsWith(b: Board, s: State, dev: Dev)
    ensures Good(b, s, dev) <==> GoodWith(b, s.page, Of(s, dev).mem, dev)
  {
    hide ActiveValid, CapsuleValid, LaidOut, Of;
  }

  // T-1 work on two good flashes with nothing asked for or due: they stay as they are
  lemma BothStay(b: Board, s: State, e: Pins)
    requires Sized(b, s) && s.mode == Running && !e.forceBmc && !e.forcePch && Quiet(s.bmc) && Quiet(s.pch)
    requires s.bmc.intent == NONE && s.pch.intent == NONE && Good(b, s, Bmc) && Good(b, s, Pch)
    ensures var r := OperateOnBoth(b, s, e);
            && r.mode == Running && SameFlashes(s, r) && r.provisioned == s.provisioned && StaysGood(s.bmc, r.bmc) && StaysGood(s.pch, r.pch)
  {
    hide *;
    Sides(b, s);
    OperateOnBothIs(b, s, e);
    NothingAsked(s);
    UpdateThenAuthenticate(b, s, Bmc, false);
    var q := Acting(s, Bmc);
    Sides(b, q);
    GoodIsWith(b, s, Bmc);
    GoodIsWith(b, s, Pch);
    ActingSame(s, Bmc);
    GoodIsWith(b, q, Bmc);
    GoodStays(b, q, Bmc);
    var t := OperateOn(b, s, Bmc, false);
    Sides(b, t);
    BmcStays(s, q, t, (q.bmc.mem[1024 * b.bmc.recovery + 513] & 0xFF) as nat, q.log + [Written(Bmc), Verified(Bmc, q.page, q.bmc.mem, false)]);
    UpdateThenAuthenticate(b, t, Pch, false);
    var p := Acting(t, Pch);
    Sides(b, p);
    ActingSame(t, Pch);
    GoodIsWith(b, p, Pch);
    GoodStays(b, p, Pch);
    var r := OperateOn(b, t, Pch, false);
    PchStays(s, t, p, r, (p.pch.mem[1024 * b.pch.recovery + 513] & 0xFF) as nat, p.log + [Written(Pch), Verified(Pch, p.page, p.pch.mem, false)]);
  }

  // A side after an authentication of good regions
  predicate StaysGood(side: Side, r: Side) {
    r == side.(svn := r.svn, flags := side.flags.(recoveryFailed := false, allFailed := false))
  }

  lemma NothingAsked(s: State)
    requires Quiet(s.bmc) && Quiet(s.pch)
    ensures FirmwareOnly(NONE) && !Asks(NONE, Bmc) && !Asks(NONE, Pch) && !Of(s, Bmc).flags.requireWdt && !Of(s, Pch).flags.requireWdt
  {
  }

  lemma BmcStays(s: State, q: State, t: State, svn: nat, log: seq<Event>)
    requires q == Acting(s, Bmc) && s.bmc.intent == NONE && Quiet(s.pch)
    requires t == Put(q, Bmc, q.bmc.(svn := svn, flags := q.bmc.flags.(recoveryFailed := false, allFailed := false))).(log := log)
    ensures t.mode == s.mode && SameFlashes(s, t) && t.provisioned == s.provisioned && t.pch == s.pch && StaysGood(s.bmc, t.bmc)
    ensures !Of(t, Pch).flags.requireWdt && q.mode == s.mode
  {
  }

  lemma PchStays(s: State, t: State, p: State, r: State, svn: nat, log: seq<Event>)
    requires p == Acting(t, Pch) && t.pch == s.pch && s.pch.intent == NONE && t.mode == s.mode && SameFlashes(s, t) && t.provisioned == s.provisioned
    requires r == Put(p, Pch, p.pch.(svn := svn, flags := p.pch.flags.(recoveryFailed := false, allFailed := false))).(log := log)
    ensures r.mode == s.mode && SameFlashes(s, r) && r.provisioned == s.provisioned && StaysGood(s.pch, r.pch) && r.bmc == t.bmc && p.mode == s.mode
  {
  }

  // The state with a recovery update carried out
  function Carried(s: State, dev: Dev, mem: Mem, page: Mem): State {
    var side := Of(s, dev);
    Put(s, dev, side.(flags := side.flags.(pending := false), mem := mem)).(page := page, log := s.log + [Written(dev)])
  }

  lemma PromotesNow(b: Board, s: State, dev: Dev, c: seq<Word>)
    requires Sized(b, s) && s.mode == Running && PromotionReady(b, s, dev, c)
    ensures var m, cfg := Of(s, dev).mem, b.Map(dev);
            && HoldsPayload(m, cfg.Staging()) && IsPage(s.page) && cfg.Staging() + 513 < |m|
            && Prepared(b, s) == Carried(s, dev, Promoted(m, cfg), SvnWritten(s.page, cfg.policy, (m[cfg.Staging() + 513] & 0xFF) as nat))
  {
    hide *;
    ReadyToPromote(b, s, dev, c);
    var m, cfg := Of(s, dev).mem, b.Map(dev);
    PromotableWhen(b.d, s.page, m, cfg);
    PromotedWords(b.d, s.page, m, cfg);
    StagingPlace(m, cfg);
    var t := Carried(s, dev, Promoted(m, cfg), SvnWritten(s.page, cfg.policy, (m[cfg.Staging() + 513] & 0xFF) as nat));
    CarriedOutNow(b, s, dev, t);
    PreparedIs(b, s);
    NoRequestForPch(b, s);
    OneOfBoth(b, s, t, dev);
  }

  lemma ReadyToPromote(b: Board, s: State, dev: Dev, c: seq<Word>)
    requires PromotionReady(b, s, dev, c)
    ensures var m, cfg, side := Of(s, dev).mem, b.Map(dev), Of(s, dev);
            && IsPage(s.page) && LaidOut(cfg, |m|) && ValidAt(b.d, s.page, m, cfg.Staging()) && HashesMatch(m, cfg)
            && HoldsPayload(m, cfg.Staging()) && c == PayloadAt(m, cfg.Staging()) && CopyFits(m, cfg)
            && side.flags.pending && !side.flags.readyCpld && !side.flags.requireWdt && Quiet(Of(s, Other(dev)))
            && s.bmc.intent == NONE && s.pch.intent == NONE && cfg.Staging() + 513 < |m|
            && GoodWith(b, SvnWritten(s.page, cfg.policy, (m[cfg.Staging() + 513] & 0xFF) as nat), Promoted(m, cfg), dev)
            && GoodWith(b, SvnWritten(s.page, cfg.policy, (m[cfg.Staging() + 513] & 0xFF) as nat), Of(s, Other(dev)).mem, Other(dev))
  {
    hide ValidAt, HashesMatch, HoldsPayload, PayloadAt, CopyFits, Quiet, GoodWith, SvnWritten, Promoted;
  }

  lemma CarriedOutNow(b: Board, s: State, dev: Dev, t: State)
    requires Sized(b, s) && IsPage(s.page) && LaidOut(b.Map(dev), |Of(s, dev).mem|) && Of(s, dev).flags.pending
    requires var m, cfg := Of(s, dev).mem, b.Map(dev);
             && Promotable(b.d, s.page, m, cfg, false) && HoldsPayload(m, cfg.Staging()) && CopyFits(m, cfg)
             && |Promoted(m, cfg)| == |m| && cfg.Staging() + 513 < |m|
             && PfmSvn(Promoted(m, cfg), cfg.Staging()) == (m[cfg.Staging() + 513] & 0xFF) as nat
             && t == Carried(s, dev, Promoted(m, cfg), SvnWritten(s.page, cfg.policy, (m[cfg.Staging() + 513] & 0xFF) as nat))
    ensures PendingUpdate(b, s, dev) == t
  {
    hide Promotable, HoldsPayload, CopyFits, Promoted, PfmSvn, SvnWritten, Sized, IsPage;
  }

  lemma NoRequestForPch(b: Board, s: State)
    requires Sized(b, s) && s.bmc.intent == NONE
    ensures PrepForOob(b, s) == s
  {
    hide Sized;
  }

  lemma OneOfBoth(b: Board, s: State, t: State, dev: Dev)
    requires Sized(b, s) && s.mode == Running && PendingUpdate(b, s, dev) == t && Quiet(Of(s, Other(dev))) && !Of(s, dev).flags.readyCpld
    requires exists mem: Mem, page: Mem :: t == Carried(s, dev, mem, page)
    ensures ProcessBoth(b, s) == t
  {
    hide Sized, Promotable, CopyFits, Promoted, SvnWritten, PfmSvn, HoldsPayload;
    if dev == Bmc {
      NothingPending(b, t, Pch);
    } else {
      NothingPending(b, s, Bmc);
    }
  }

  lemma NothingPending(b: Board, s: State, dev: Dev)
    requires Sized(b, s) && !Of(s, dev).flags.pending
    ensures PendingUpdate(b, s, dev) == s
  {
    hide Sized, Promotable, CopyFits, Promoted, SvnWritten, PfmSvn, HoldsPayload;
  }

  // Once every component has booted, a recovery update that is due is carried out: the platform is reset, the
  // recovery region gets the words of the staged capsule, erased behind its end, and the rest of that flash and
  // all of the other stay; the minimum SVN is raised to that of the capsule's manifest; both components leave
  // reset and nothing is due any more
  lemma RecoveryUpdateRuns(b: Board, s: State, dev: Dev, e: Pins, c: seq<Word>)
    requires Sized(b, s) && s.mode == Running && s.provisioned && PromotionReady(b, s, dev, c)
    requires AllBooted(s) && !s.cpldPending && e == Pins(true, false, false)
    ensures var cfg, m, r := b.Map(dev), Of(s, dev).mem, PostUpdate(b, s, e);
            && r.mode == Running && !r.bmc.held && !r.pch.held && !Of(r, dev).flags.pending
            && |Of(r, dev).mem| == |m| && Of(r, Other(dev)).mem == Of(s, Other(dev)).mem
            && (forall j: nat | j < |m| :: Of(r, dev).mem[j] == CopyOf(c, cfg.recovery, j, m[j]))
            && 1024 * cfg.staging + 513 < |m| && IsPage(s.page)
            && r.page == SvnWritten(s.page, cfg.policy, (m[1024 * cfg.staging + 513] & 0xFF) as nat)
  {
    hide *;
    var cfg, m := b.Map(dev), Of(s, dev).mem;
    ReadyToPromote(b, s, dev, c);
    PostUpdateIs(b, s, e, dev);
    PromotionInReset(b, s, dev, e, c);
    PromotedWords(b.d, s.page, m, cfg);
    CopiedWords(m, Promoted(m, cfg), cfg, c);
  }

  lemma PromotionInReset(b: Board, s: State, dev: Dev, e: Pins, c: seq<Word>)
    requires Sized(b, s) && s.mode == Running && s.provisioned && PromotionReady(b, s, dev, c) && e == Pins(true, false, false)
    ensures var cfg, m, r := b.Map(dev), Of(s, dev).mem, PlatformReset(b, s, e);
            && HoldsPayload(m, cfg.Staging()) && IsPage(s.page) && cfg.Staging() + 513 < |m|
            && r.mode == Running && !r.bmc.held && !r.pch.held && !Of(r, dev).flags.pending && Of(r, dev).mem == Promoted(m, cfg)
            && Of(r, Other(dev)).mem == Of(s, Other(dev)).mem
            && r.page == SvnWritten(s.page, cfg.policy, (m[cfg.Staging() + 513] & 0xFF) as nat)
  {
    hide *;
    ReadyToPromote(b, s, dev, c);
    var t, m, cfg := HoldBoth(s), Of(s, dev).mem, b.Map(dev);
    BothSame(s);
    HoldBothFits(b, s);
    StateAlike(b, s, t, dev, c);
    PromotesNow(b, t, dev, c);
    var x := Prepared(b, t);
    PlatformResetIs(b, s, e);
    Tmin1Is(b, t, e);
    var page := SvnWritten(s.page, cfg.policy, (m[cfg.Staging() + 513] & 0xFF) as nat);
    CarriedState(b, s, t, x, dev, Promoted(m, cfg), page);
    BothStay(b, x, e);
    ReleasedAfter(s, x, OperateOnBoth(b, x, e), dev, Promoted(m, cfg), page);
  }

  lemma CopiedWords(m: Mem, r: Mem, cfg: FlashMap, c: seq<Word>)
    requires AfterCopy(m, r, cfg, true) && HoldsPayload(m, cfg.Staging()) && c == PayloadAt(m, cfg.Staging())
    ensures |r| == |m| && forall j: nat | j < |m| :: r[j] == CopyOf(c, cfg.recovery, j, m[j])
    ensures cfg.Staging() == 1024 * cfg.staging
  {
    assert cfg.Staging() == 1024 * cfg.staging;
    hide HoldsPayload, PayloadAt, CopyOf;
  }

  lemma StateAlike(b: Board, s: State, t: State, dev: Dev, c: seq<Word>)
    requires PromotionReady(b, s, dev, c) && t.bmc == s.bmc.(held := true) && t.pch == s.pch.(held := true) && t.page == s.page
    ensures PromotionReady(b, t, dev, c) && Of(t, dev).mem == Of(s, dev).mem
  {
    hide ValidAt, HashesMatch, HoldsPayload, PayloadAt, CopyFits, GoodWith, SvnWritten, Promoted, LaidOut;
  }

  lemma PostUpdateIs(b: Board, s: State, e: Pins, dev: Dev)
    requires Sized(b, s) && AllBooted(s) && Of(s, dev).flags.pending && !s.cpldPending
    ensures PostUpdate(b, s, e) == PlatformReset(b, s, e)
  {
    hide Sized, PlatformReset;
  }

  lemma CarriedState(b: Board, s: State, t: State, x: State, dev: Dev, mem: Mem, page: Mem)
    requires x == Carried(t, dev, mem, page) && t.bmc == s.bmc.(held := true) && t.pch == s.pch.(held := true)
    requires s.mode == Running && t.mode == s.mode && s.bmc.intent == NONE && s.pch.intent == NONE
    requires !Of(s, dev).flags.readyCpld && !Of(s, dev).flags.requireWdt && Quiet(Of(s, Other(dev)))
    requires GoodWith(b, page, mem, dev) && GoodWith(b, page, Of(s, Other(dev)).mem, Other(dev))
    ensures Quiet(x.bmc) && Quiet(x.pch) && x.bmc.intent == NONE && x.pch.intent == NONE && x.mode == Running
    ensures Good(b, x, Bmc) && Good(b, x, Pch) && x.bmc.held && x.pch.held && Of(x, dev).mem == mem && x.page == page
    ensures Of(x, Other(dev)).mem == Of(s, Other(dev)).mem
  {
    GoodIsWith(b, x, Bmc);
    GoodIsWith(b, x, Pch);
    hide GoodWith, Good;
  }

  lemma ReleasedAfter(s: State, x: State, y: State, dev: Dev, mem: Mem, page: Mem)
    requires y.mode == Running && SameFlashes(x, y) && StaysGood(x.bmc, y.bmc) && StaysGood(x.pch, y.pch)
    requires Quiet(x.bmc) && Quiet(x.pch) && x.bmc.held && x.pch.held && Of(x, dev).mem == mem && x.page == page
    requires Of(x, Other(dev)).mem == Of(s, Other(dev)).mem
    ensures var r := EnterT0(y);
            && r.mode == Running && !r.bmc.held && !r.pch.held && !Of(r, dev).flags.pending && Of(r, dev).mem == mem
            && Of(r, Other(dev)).mem == Of(s, Other(dev)).mem && r.page == page
  {
    BothLeave(y);
  }

  // ---------------------------------------------------------------- a recovery region that is not valid

  // The state with a recovery update due and the register cleared
  function Due(s: State, dev: Dev): State {
    Put(s, dev, Of(s, dev).(intent := NONE, flags := Of(s, dev).flags.(pending := true)))
  }

  // Where the recovery region of a flash is not valid, a recovery update, asked for by the component whose flash
  // it is, does not rebuild the active image first: the platform is reset at once, and that reset puts the words of
  // the staged capsule into the recovery region, if it is the capsule of the active image. The rest of both flashes
  // stays, and nothing is asked for or due any more.
  lemma InvalidRecoveryIsReplaced(b: Board, s: State, dev: Dev, e: Pins, c: seq<Word>)
    requires Sized(b, s) && s.mode == Running && s.provisioned && e == Pins(true, false, false)
    requires AsksRecovery(Of(s, dev).intent, dev) && !Of(s, dev).intent.atReset && Of(s, dev).flags.recoveryFailed
    requires (if dev == Bmc then BmcLetThrough(s) else PchLetThrough(s)) && PromotionReady(b, Due(s, dev), dev, c)
    ensures var cfg, m := b.Map(dev), Of(s, dev).mem;
            var r := if dev == Bmc then BmcIntent(b, s, e) else PchIntent(b, s, e);
            && r.mode == Running && !r.bmc.held && !r.pch.held && !Of(r, dev).flags.pending
            && |Of(r, dev).mem| == |m| && Of(r, Other(dev)).mem == Of(s, Other(dev)).mem
            && (forall j: nat | j < |m| :: Of(r, dev).mem[j] == CopyOf(c, cfg.recovery, j, m[j]))
            && 1024 * cfg.staging + 513 < |m| && IsPage(s.page)
            && r.page == SvnWritten(s.page, cfg.policy, (m[1024 * cfg.staging + 513] & 0xFF) as nat)
  {
    hide *;
    var t, cfg, m := Due(s, dev), b.Map(dev), Of(s, dev).mem;
    DueIs(b, s, dev);
    if dev == Bmc {
      BmcIntentIs(b, s, e);
    } else {
      PchIntentIs(b, s, e);
    }
    ReadyToPromote(b, t, dev, c);
    PromotionInReset(b, t, dev, e, c);
    PromotedWords(b.d, t.page, m, cfg);
    CopiedWords(m, Promoted(m, cfg), cfg, c);
  }

  lemma DueIs(b: Board, s: State, dev: Dev)
    requires Sized(b, s) && AsksRecovery(Of(s, dev).intent, dev) && !Of(s, dev).intent.atReset && Of(s, dev).flags.recoveryFailed
    requires if dev == Bmc then BmcLetThrough(s) else PchLetThrough(s)
    ensures var t := Due(s, dev);
            && Sized(b, t) && t.mode == s.mode && t.provisioned == s.provisioned && t.page == s.page && Of(t, dev).mem == Of(s, dev).mem
            && Of(t, Other(dev)) == Of(s, Other(dev)) && (dev == Bmc || dev == Pch)
    ensures dev == Bmc ==> s.bmc.intent.Any() && !s.bmc.intent.atReset && s.bmc.intent.bmcRecovery && BmcAsks(s) == Due(s, Bmc)
    ensures dev == Pch ==> s.pch.intent.Any() && !s.pch.intent.atReset && !s.pch.intent.pchActive && PchAsks(s) == Due(s, Pch)
  {
  }
}
