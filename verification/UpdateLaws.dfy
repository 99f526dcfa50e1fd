/**
 What updates and update intents come to, told by the words of the flash, the bits of the intent and the
 log: what an active update leaves, which reset an intent leads to, when a capsule reaches the other flash,
 and what follows a completed boot.
 */
module UpdateLaws {
  import opened NorFlash
  import opened SpiRwUtils
  import opened Ufm
  import opened Authentication
  import opened Pfm
  import opened Decompression
  import opened Rebuild
  import opened PfmValidation
  import opened CapsuleValidation
  import opened FlashValidation
  import opened Platform
  import opened PlatformLog
  import opened PlatformWork
  import opened PlatformSteps
  import opened PlatformEffects
  import opened RecoveryMatrix

  // ---------------------------------------------------------------- an active update

  // The intent asks for an update of this flash; for one of its recovery region too
  predicate Asks(i: Intent, dev: Dev) {
    if dev == Bmc then i.bmcActive || i.bmcRecovery else i.pchActive || i.pchRecovery
  }

  predicate AsksRecovery(i: Intent, dev: Dev) { if dev == Bmc then i.bmcRecovery else i.pchRecovery }

  // The bits of the intent register that the capsule of a flash is checked against
  function BitsFor(i: Intent, dev: Dev): Word {
    if dev == Bmc then (if i.bmcActive then 8 else 0) | (if i.bmcRecovery then 0x10 else 0)
    else (if i.pchActive then 1 else 0) | (if i.pchRecovery then 2 else 0)
  }

  // What check_capsule_before_update says of the staged capsule of a flash
  ghost predicate Says(b: Board, s: State, dev: Dev, i: Intent, v: Verdict) {
    var m, at := Of(s, dev).mem, 1024 * b.Map(dev).staging;
    IsPage(s.page) && at + 256 <= |m| && v == Check(b.d, s.page, m, at, BitsFor(i, dev), s.pch.svn, s.bmc.svn)
  }

  lemma BitsAre(i: Intent, dev: Dev)
    ensures (if dev == Bmc then i.OnlyBmcFw() else i.OnlyPchFw()).Word() == BitsFor(i, dev)
  {
  }

  lemma SaysIs(b: Board, s: State, dev: Dev, i: Intent, v: Verdict)
    requires Sized(b, s) && Says(b, s, dev, i, v)
    ensures b.Map(dev).Staging() + 514 <= |Of(s, dev).mem|
    ensures v == Examine(b, s, dev, b.Map(dev).Staging(), if dev == Bmc then i.OnlyBmcFw() else i.OnlyPchFw())
  {
    StagingFits(b, s, dev);
    ExamineIs(b, s, dev, b.Map(dev).Staging(), if dev == Bmc then i.OnlyBmcFw() else i.OnlyPchFw());
    BitsAre(i, dev);
    hide Examine, Check, Sized, BitsFor, Intent.Word;
  }

  // The capsule at the staging pages of a flash, when it can be used for an update of these regions
  ghost predicate Staged(b: Board, s: State, dev: Dev, i: Intent, c: seq<Word>) {
    var m, cfg := Of(s, dev).mem, b.Map(dev);
    HoldsPayload(m, 1024 * cfg.staging) && c == PayloadAt(m, 1024 * cfg.staging) && CanUpdate(cfg, m, AsksRecovery(i, dev) || i.dynamic)
  }

  // Where the capsule has a compressed page in a region that is rebuilt, it has the page marked as active too
  ghost predicate Marked(c: seq<Word>, dynamic: bool, staging: Word, page: nat) {
    HasHeader(c) && HoldsBody(c) && (Selected(Parse(c[520..]), true, dynamic, staging, page) && Comp(LayoutOf(c), page) ==> Active(LayoutOf(c), page))
  }

  // An update with a capsule that may proceed rebuilds static regions, and dynamic ones exactly when a recovery
  // update or the dynamic bit asks for it, word for word as the capsule says; everything else in the flash is as
  // before. It clears the count of failed attempts, makes a recovery update due exactly when one was asked for,
  // turns the timers of this component on again, and touches nothing else.
  lemma FirmwareUpdateByWords(b: Board, s: State, dev: Dev, i: Intent, c: seq<Word>, j: nat)
    requires Sized(b, s) && Says(b, s, dev, i, Proceeds) && Staged(b, s, dev, i, c) && j < |Of(s, dev).mem|
    requires Marked(c, AsksRecovery(i, dev) || i.dynamic, b.Map(dev).stagingAddr, j / 1024)
    ensures HasHeader(c) && HoldsManifest(c) && HoldsBody(c)
    ensures var side, cfg, r := Of(s, dev), b.Map(dev), FirmwareUpdate(b, s, dev, i);
            && r == Put(s, dev, side.(mem := Of(r, dev).mem, attempts := 0,
                                      flags := side.flags.(pending := side.flags.pending || AsksRecovery(i, dev))))
                      .(enabled := s.enabled + (if dev == Bmc then {BmcTimer} else {MeTimer, AcmBiosTimer}), log := s.log + [Written(dev)])
            && |Of(r, dev).mem| == |side.mem|
            && Of(r, dev).mem[j]
               == RebuiltBy(c, Parse(c[520..]), true, AsksRecovery(i, dev) || i.dynamic, cfg.stagingAddr, cfg.pfm, j, side.mem[j])
  {
    hide *;
    var side, cfg, all := Of(s, dev), b.Map(dev), AsksRecovery(i, dev) || i.dynamic;
    SaysIs(b, s, dev, i, Proceeds);
    Proceeding(b, s, dev, i);
    StagedIs(b, s, dev, i, c);
    ActiveUpdateIs(b, s, dev, i);
    UpdatedByManifest(cfg, side.mem, all, c, j);
  }

  lemma Proceeding(b: Board, s: State, dev: Dev, i: Intent)
    requires Sized(b, s) && b.Map(dev).Staging() + 514 <= |Of(s, dev).mem|
    requires Examine(b, s, dev, b.Map(dev).Staging(), if dev == Bmc then i.OnlyBmcFw() else i.OnlyPchFw()) == Proceeds
    ensures FirmwareUpdate(b, s, dev, i) == ActiveUpdate(b, s, dev, i)
  {
    hide Examine, ActiveUpdate, Sized, Examined, Intent.OnlyBmcFw, Intent.OnlyPchFw;
  }

  lemma StagedIs(b: Board, s: State, dev: Dev, i: Intent, c: seq<Word>)
    requires Staged(b, s, dev, i, c)
    ensures var m, cfg := Of(s, dev).mem, b.Map(dev);
            && HoldsPayload(m, cfg.Staging()) && c == PayloadAt(m, cfg.Staging()) && CanUpdate(cfg, m, AsksRecovery(i, dev) || i.dynamic)
  {
    hide CanUpdate, HoldsPayload, PayloadAt;
  }

  lemma ActiveUpdateIs(b: Board, s: State, dev: Dev, i: Intent)
    requires Sized(b, s) && CanUpdate(b.Map(dev), Of(s, dev).mem, AsksRecovery(i, dev) || i.dynamic)
    ensures var side, r := Of(s, dev), ActiveUpdate(b, s, dev, i);
            && r == Put(s, dev, side.(mem := Of(r, dev).mem, attempts := 0,
                                      flags := side.flags.(pending := side.flags.pending || AsksRecovery(i, dev))))
                      .(enabled := s.enabled + (if dev == Bmc then {BmcTimer} else {MeTimer, AcmBiosTimer}), log := s.log + [Written(dev)])
            && Of(r, dev).mem == UpdatedImage(b.Map(dev), side.mem, AsksRecovery(i, dev) || i.dynamic)
  {
    hide CanUpdate, UpdatedImage, Sized;
  }

  lemma UpdatedByManifest(cfg: FlashMap, m: Mem, all: bool, c: seq<Word>, j: nat)
    requires CanUpdate(cfg, m, all) && HoldsPayload(m, cfg.Staging()) && c == PayloadAt(m, cfg.Staging()) && j < |m|
    requires Marked(c, all, cfg.stagingAddr, j / 1024)
    ensures HasHeader(c) && HoldsManifest(c) && HoldsBody(c)
    ensures UpdatedImage(cfg, m, all)[j] == RebuiltBy(c, Parse(c[520..]), true, all, cfg.stagingAddr, cfg.pfm, j, m[j])
  {
    hide *;
    UsableHere(cfg, m, all, c);
    MarkedIs(c, all, cfg.stagingAddr, j / 1024);
    ModeBits(all);
    RebuiltByManifest(c, ModeOf(all), cfg.stagingAddr, cfg.pfm, m, j);
  }

  lemma UsableHere(cfg: FlashMap, m: Mem, all: bool, c: seq<Word>)
    requires CanUpdate(cfg, m, all) && HoldsPayload(m, cfg.Staging()) && c == PayloadAt(m, cfg.Staging())
    ensures Readable(c) && HasHeader(c) && HoldsManifest(c) && |SignedPfm(c)| <= 16384
    ensures UpdatedImage(cfg, m, all) == RebuiltFrom(c, ModeOf(all), cfg.stagingAddr, cfg.pfm, m)
  {
    hide RegionsSafe, CapsuleRegions, LayoutOf, SignedPfm, RebuiltFrom, HasHeader, PayloadAt;
  }

  lemma MarkedIs(c: seq<Word>, dynamic: bool, staging: Word, page: nat)
    requires Marked(c, dynamic, staging, page)
    ensures HasHeader(c) && HoldsBody(c)
    ensures Selected(Parse(c[520..]), true, dynamic, staging, page) && Comp(LayoutOf(c), page) ==> Active(LayoutOf(c), page)
  {
  }

  lemma ModeBits(all: bool)
    ensures ModeOf(all).TakesStatic() && (ModeOf(all).TakesDynamic() <==> all)
  {
  }

  // The page lies in no static region
  ghost predicate Movable(es: seq<Entry>, page: nat) { forall e | e in es :: HoldsPage(e, page) ==> !IsStatic(e) }

  // A plain active update leaves dynamic and staging regions alone, and what is in no region, outside the 64KB
  // of the manifest; the pages of static regions that the capsule has come to be as it says
  lemma PlainUpdateKeepsData(b: Board, s: State, dev: Dev, i: Intent, c: seq<Word>, j: nat)
    requires Sized(b, s) && Says(b, s, dev, i, Proceeds) && Staged(b, s, dev, i, c) && j < |Of(s, dev).mem|
    requires !AsksRecovery(i, dev) && !i.dynamic && !(b.Map(dev).pfm <= j / 1024 < b.Map(dev).pfm + 16)
    requires Marked(c, false, b.Map(dev).stagingAddr, j / 1024)
    ensures HasHeader(c) && HoldsBody(c)
    ensures var side, r, k := Of(s, dev), Of(FirmwareUpdate(b, s, dev, i), dev), LayoutOf(c);
            && |r.mem| == |side.mem| && r.mem[j] == if !Movable(Parse(c[520..]), j / 1024) && Active(k, j / 1024)
                                                    then Described(k, j / 1024, j % 1024) else side.mem[j]
  {
    hide *;
    FirmwareUpdateByWords(b, s, dev, i, c, j);
    BodyIs(c);
    PlainWord(c, Parse(c[520..]), b.Map(dev).stagingAddr, b.Map(dev).pfm, j, Of(s, dev).mem[j]);
    assert Of(FirmwareUpdate(b, s, dev, i), dev).mem[j]
      == RebuiltBy(c, Parse(c[520..]), true, false, b.Map(dev).stagingAddr, b.Map(dev).pfm, j, Of(s, dev).mem[j]);
  }

  lemma PlainWord(c: seq<Word>, es: seq<Entry>, staging: Word, pfm: nat, j: nat, before: Word)
    requires HasHeader(c) && HoldsManifest(c) && !(pfm <= j / 1024 < pfm + 16)
    ensures RebuiltBy(c, es, true, false, staging, pfm, j, before)
         == if !Movable(es, j / 1024) && Active(LayoutOf(c), j / 1024) then Described(LayoutOf(c), j / 1024, j % 1024) else before
  {
    hide HasHeader, HoldsManifest, LayoutOf, SignedPfm, Active, Described, HoldsPage, IsStatic, IsDynamic;
    if Selected(es, true, false, staging, j / 1024) {
      var e :| e in es && HoldsPage(e, j / 1024) && IsStatic(e);
    }
  }

  lemma BodyIs(c: seq<Word>)
    requires HoldsBody(c)
    ensures |c| >= 520 && Terminated(c[520..])
  {
  }

  // A staged capsule that is refused counts as a failed attempt, a certificate stops its key; either way that
  // is all, and no other verdict is given on firmware bits
  lemma UpdateTurnedDown(b: Board, s: State, dev: Dev, i: Intent, v: Verdict)
    requires Sized(b, s) && Says(b, s, dev, i, v) && Asks(i, dev) && v != Proceeds
    ensures var side, r := Of(s, dev), FirmwareUpdate(b, s, dev, i);
            && (v == Refused ==> r == Put(s, dev, side.(attempts := side.attempts + 1)))
            && (v.CancelsKey? ==> IsPage(s.page) && v.id <= 127 && r == s.(page := KeyCancelled(s.page, v.pcType, v.id)))
            && v != Decommissions
  {
    SaysIs(b, s, dev, i, v);
    var x := if dev == Bmc then i.OnlyBmcFw() else i.OnlyPchFw();
    AskedBits(i, dev);
    FirmwareBits(i, dev);
    FirmwareIntentNeverDecommissions(b, s, dev, b.Map(dev).Staging(), x);
    hide Sized, Examine, ActiveUpdate, KeyCancelled, Intent.Word, ForFirmware, Intent.OnlyBmcFw, Intent.OnlyPchFw, Check, BitsFor;
  }

  lemma AskedBits(i: Intent, dev: Dev)
    ensures Asks(i, dev) <==> if dev == Bmc then i.BmcFw() else i.PchFw()
  {
  }

  // ---------------------------------------------------------------- which reset an intent leads to

  lemma WorkEntersNothing(a: seq<Event>, c: seq<Event>, devs: set<Dev>, dev: Dev, provisioned: bool)
    requires Adds(a, c, devs)
    ensures Count(c, Entered(dev, provisioned)) == Count(a, Entered(dev, provisioned))
  {
    var rest := c[|a|..];
    assert c == a + rest;
    assert Entered(dev, provisioned) !in rest;
  }

  // Nothing enters reset on the way out of T-1
  predicate NoneEnters(a: seq<Event>, c: seq<Event>) {
    forall dev: Dev, p: bool :: Count(c, Entered(dev, p)) == Count(a, Entered(dev, p))
  }

  lemma ReleaseEntersNothing(s: State, dev: Dev)
    ensures NoneEnters(s.log, Release(s, dev).log)
  {
    forall d: Dev, p: bool ensures Count(Release(s, dev).log, Entered(d, p)) == Count(s.log, Entered(d, p)) {
      CountOne(s.log, Released(dev, Of(s, dev).mem), Entered(d, p));
    }
  }

  lemma LeavingEntersNothing(s: State)
    ensures NoneEnters(s.log, EnterT0(s).log) && NoneEnters(s.log, EnterT0BmcOnly(s).log) && NoneEnters(s.log, BootPch(s).log)
  {
    ReleaseEntersNothing(s, Bmc);
    ReleaseEntersNothing(s, Pch);
    ReleaseEntersNothing(BootBmc(s), Pch);
    hide Release, Count;
  }

  // How many more times a component was put into reset on a provisioned platform
  predicate Enters(s: State, r: State, bmc: nat, pch: nat) {
    && Count(r.log, Entered(Bmc, true)) == Count(s.log, Entered(Bmc, true)) + bmc
    && Count(r.log, Entered(Pch, true)) == Count(s.log, Entered(Pch, true)) + pch
  }

  lemma HoldEnters(s: State, dev: Dev)
    requires s.provisioned
    ensures Enters(s, Hold(s, dev), if dev == Bmc then 1 else 0, if dev == Pch then 1 else 0) && Hold(s, dev).provisioned
  {
    CountOne(s.log, Entered(dev, true), Entered(Bmc, true));
    CountOne(s.log, Entered(dev, true), Entered(Pch, true));
    hide Count;
  }

  lemma EntersOn(s: State, t: State, r: State, bmc: nat, pch: nat)
    requires Enters(s, t, bmc, pch) && NoneEnters(t.log, r.log)
    ensures Enters(s, r, bmc, pch)
  {
    hide Count;
  }

  lemma WorkNoneEnters(a: seq<Event>, c: seq<Event>, devs: set<Dev>)
    requires Adds(a, c, devs)
    ensures NoneEnters(a, c)
  {
    forall dev: Dev, p: bool ensures Count(c, Entered(dev, p)) == Count(a, Entered(dev, p)) {
      WorkEntersNothing(a, c, devs, dev, p);
    }
  }

  lemma WorksAdds(s: State, r: State, dev: Dev, n: nat)
    requires Works(s, r, dev, n)
    ensures Adds(s.log, r.log, {dev})
  {
  }

  lemma WorksBothAdds(s: State, r: State, n: nat, p: nat)
    requires WorksOnBoth(s, r, n, p)
    ensures Adds(s.log, r.log, {Bmc, Pch})
  {
  }

  // A platform reset puts both components into reset, once
  lemma PlatformResetEnters(b: Board, s: State, e: Pins)
    requires Sized(b, s) && Sound(b, s) && s.mode == Running && s.provisioned
    ensures Enters(s, PlatformReset(b, s, e), 1, 1)
  {
    hide *;
    PlatformResetIs(b, s, e);
    HeldSound(b, s);
    SameMode(s, HoldBoth(s));
    SoundFacts(b, HoldBoth(s));
    BothEnter(s);
    var t := HoldBoth(s);
    var n, p := Tmin1Works(b, t, e);
    var x := Tmin1(b, t, e);
    WorksBothAdds(t, x, n, p);
    WorkNoneEnters(t.log, x.log, {Bmc, Pch});
    EntersOn(s, t, x, 1, 1);
    LeavingEntersNothing(x);
    EntersOn(s, x, EnterT0(x), 1, 1);
  }

  lemma BothEnter(s: State)
    requires s.provisioned
    ensures Enters(s, HoldBoth(s), 1, 1)
  {
    HoldEnters(s, Bmc);
    HoldEnters(Hold(s, Bmc), Pch);
    hide Hold, Count;
  }

  // A reset of one component puts that one into reset, once
  lemma AloneEnters(b: Board, s: State, force: bool)
    requires Sized(b, s) && s.mode == Running && s.provisioned
    ensures Enters(s, BmcOnlyReset(b, s, force), 1, 0) && Enters(s, PchOnlyReset(b, s, force), 0, 1)
  {
    hide *;
    HoldsOn(s, Bmc);
    HoldsOn(s, Pch);
    HoldEnters(s, Bmc);
    HoldEnters(s, Pch);
    BmcOnlyResetIs(b, s, force);
    PchOnlyResetIs(b, s, force);
    var n := OperateOnBmcWorks(b, Hold(s, Bmc), force);
    OperateOnPchWorks(b, Hold(s, Pch), force);
    var x, y := OperateOn(b, Hold(s, Bmc), Bmc, force), OperateOn(b, Hold(s, Pch), Pch, force);
    WorksAdds(Hold(s, Bmc), x, Bmc, n);
    WorksAdds(Hold(s, Pch), y, Pch, 0);
    WorkNoneEnters(Hold(s, Bmc).log, x.log, {Bmc});
    WorkNoneEnters(Hold(s, Pch).log, y.log, {Pch});
    LeavingEntersNothing(x);
    LeavingEntersNothing(y);
    EntersOn(s, Hold(s, Bmc), x, 1, 0);
    EntersOn(s, Hold(s, Pch), y, 0, 1);
    EntersOn(s, x, EnterT0BmcOnly(x), 1, 0);
    EntersOn(s, y, BootPch(y), 0, 1);
  }

  lemma HoldsOn(s: State, dev: Dev)
    ensures Hold(s, dev).mode == s.mode
  {
  }

  // The BMC's intent is acted upon: it has a bit of some update, too few attempts failed, and no active update
  // is asked for of a flash whose recovery image is not valid
  predicate BmcLetThrough(s: State) {
    var i := s.bmc.intent;
    && (i.bmcActive || i.bmcRecovery || i.pchActive || i.pchRecovery || i.cpldActive || i.cpldRecovery) && s.bmc.attempts < 3
    && !(s.bmc.flags.recoveryFailed && i.bmcActive) && !(s.pch.flags.recoveryFailed && i.pchActive)
  }

  predicate PchLetThrough(s: State) {
    var i := s.pch.intent;
    (i.pchActive || i.pchRecovery) && s.pch.attempts < 3 && !(s.pch.flags.recoveryFailed && i.pchActive)
  }

  // Every intent of the BMC that is not to wait and is acted upon puts the BMC into reset, once, and the PCH
  // exactly when it asks for a recovery update, a CPLD update or an update of the PCH. One that is not acted
  // upon is dropped: the register is cleared, and at most a recovery update of the BMC is made due.
  lemma BmcIntentEnters(b: Board, s: State, e: Pins)
    requires Sized(b, s) && Safe(b, s) && s.mode == Running && s.provisioned && s.bmc.intent.Any() && !s.bmc.intent.atReset
    ensures var i, r := s.bmc.intent, BmcIntent(b, s, e);
            var both := i.bmcRecovery || i.cpldActive || i.cpldRecovery || i.pchActive || i.pchRecovery;
            && Enters(s, r, if BmcLetThrough(s) then 1 else 0, if BmcLetThrough(s) && both then 1 else 0)
            && (BmcLetThrough(s) && !both ==> r.pch == s.pch)
            && (!BmcLetThrough(s) ==> exists due: bool :: r == BmcDropped(s, due) && (due ==> s.bmc.flags.recoveryFailed && i.bmcRecovery))
  {
    hide *;
    BmcIntentIs(b, s, e);
    var t := BmcAsks(s);
    AsksSound(b, s);
    SafeFacts(b, t);
    PlatformResetEnters(b, t, e);
    AloneEnters(b, t, e.forceBmc);
    BmcOnlyResetSparesPch(b, t, e.forceBmc);
    EntersLike(s, t, PlatformReset(b, t, e), 1, 1);
    EntersLike(s, t, BmcOnlyReset(b, t, e.forceBmc), 1, 0);
    DroppedEnters(s, true);
    DroppedEnters(s, false);
  }

  // The register cleared, with a recovery update made due or not
  function BmcDropped(s: State, due: bool): State {
    s.(bmc := s.bmc.(intent := NONE, flags := s.bmc.flags.(pending := s.bmc.flags.pending || due)))
  }

  // The state in which an intent is carried out: a recovery update of a flash whose recovery image is not valid
  // is made due right away, and all bits of the intent are gone
  function BmcAsks(s: State): State { if s.bmc.flags.recoveryFailed && s.bmc.intent.bmcRecovery then BmcDropped(s, true) else s }

  lemma BmcIntentIs(b: Board, s: State, e: Pins)
    requires Sized(b, s) && s.bmc.intent.Any() && !s.bmc.intent.atReset
    ensures var i, t, r := s.bmc.intent, BmcAsks(s), BmcIntent(b, s, e);
            var both := i.bmcRecovery || i.cpldActive || i.cpldRecovery || i.pchActive || i.pchRecovery;
            && Sized(b, t)
            && (BmcLetThrough(s) ==> r == if both then PlatformReset(b, t, e) else BmcOnlyReset(b, t, e.forceBmc))
            && (!BmcLetThrough(s) ==>
                  r == BmcDropped(s, false) || (r == BmcDropped(s, true) && s.bmc.flags.recoveryFailed && i.bmcRecovery))
  {
    DroppedFits(b, s);
    hide Sized, PlatformReset, BmcOnlyReset;
  }

  lemma DroppedFits(b: Board, s: State)
    requires Sized(b, s)
    ensures Sized(b, BmcDropped(s, true)) && Sized(b, BmcDropped(s, false))
  {
  }

  lemma AsksSound(b: Board, s: State)
    requires Sized(b, s) && Safe(b, s) && s.mode == Running
    ensures var t := BmcAsks(s);
            Safe(b, t) && t.mode == s.mode && t.log == s.log && t.provisioned == s.provisioned && t.pch == s.pch
  {
    TakenKeeps(b, s, Bmc, true);
    assert Taken(s, Bmc, true) == BmcDropped(s, true);
    hide Safe, Sized;
  }

  lemma EntersLike(s: State, t: State, r: State, bmc: nat, pch: nat)
    requires t.log == s.log && Enters(t, r, bmc, pch)
    ensures Enters(s, r, bmc, pch)
  {
  }

  lemma DroppedEnters(s: State, due: bool)
    ensures Enters(s, BmcDropped(s, due), 0, 0) && Enters(s, PchDropped(s, due), 0, 0)
  {
  }

  function PchDropped(s: State, due: bool): State {
    s.(pch := s.pch.(intent := NONE, flags := s.pch.flags.(pending := s.pch.flags.pending || due)))
  }

  function PchAsks(s: State): State { if s.pch.flags.recoveryFailed && s.pch.intent.pchRecovery then PchDropped(s, true) else s }

  // Every intent of the PCH that is not to wait and is acted upon puts the PCH into reset, once, and the BMC
  // exactly when it does not ask for an active update. One that is not acted upon is dropped.
  lemma PchIntentEnters(b: Board, s: State, e: Pins)
    requires Sized(b, s) && Safe(b, s) && s.mode == Running && s.provisioned && s.pch.intent.Any() && !s.pch.intent.atReset
    ensures var i, r := s.pch.intent, PchIntent(b, s, e);
            && Enters(s, r, if PchLetThrough(s) && !i.pchActive then 1 else 0, if PchLetThrough(s) then 1 else 0)
            && (PchLetThrough(s) && i.pchActive ==> r.bmc == s.bmc)
            && (!PchLetThrough(s) ==> r == PchDropped(s, false))
  {
    hide *;
    PchIntentIs(b, s, e);
    var t := PchAsks(s);
    PchAsksSound(b, s);
    SafeFacts(b, t);
    PlatformResetEnters(b, t, e);
    AloneEnters(b, t, e.forcePch);
    PchOnlyResetSparesBmc(b, t, e.forcePch);
    EntersLike(s, t, PlatformReset(b, t, e), 1, 1);
    EntersLike(s, t, PchOnlyReset(b, t, e.forcePch), 0, 1);
    DroppedEnters(s, false);
  }

  lemma PchIntentIs(b: Board, s: State, e: Pins)
    requires Sized(b, s) && s.pch.intent.Any() && !s.pch.intent.atReset
    ensures var i, t, r := s.pch.intent, PchAsks(s), PchIntent(b, s, e);
            && Sized(b, t)
            && r == if !PchLetThrough(s) then PchDropped(s, false)
                    else if i.pchActive then PchOnlyReset(b, t, e.forcePch) else PlatformReset(b, t, e)
  {
    PchDroppedFits(b, s);
    hide Sized, PlatformReset, PchOnlyReset;
  }

  lemma PchDroppedFits(b: Board, s: State)
    requires Sized(b, s)
    ensures Sized(b, PchDropped(s, true)) && Sized(b, PchDropped(s, false))
  {
  }

  lemma PchAsksSound(b: Board, s: State)
    requires Sized(b, s) && Safe(b, s) && s.mode == Running
    ensures var t := PchAsks(s);
            Safe(b, t) && t.mode == s.mode && t.log == s.log && t.provisioned == s.provisioned && t.bmc == s.bmc
  {
    TakenKeeps(b, s, Pch, true);
    assert Taken(s, Pch, true) == PchDropped(s, true);
    hide Safe, Sized;
  }

  // ---------------------------------------------------------------- other occasions for a reset

  // The routine after an update resets the platform exactly when every component has booted and a firmware or
  // CPLD recovery update is due; a reset of the BMC that it makes itself is followed by one by the firmware
  // exactly when the BMC had booted
  lemma OtherResets(b: Board, s: State, seen: bool, e: Pins)
    requires Sized(b, s) && Safe(b, s) && s.mode == Running && s.provisioned
    ensures var due := s.booted == {BmcPart, Me, Acm, Ibb, Obb} && (s.bmc.flags.pending || s.pch.flags.pending || s.cpldPending);
            var r := PostUpdate(b, s, e);
            if due then Enters(s, r, 1, 1) else r == s
    ensures var again, r := BmcPart in s.booted && seen, BmcReset(b, s, seen, e);
            if again then Enters(s, r, 1, 0) && r.pch == s.pch else r == s
  {
    hide *;
    SafeFacts(b, s);
    var t := s.(bmc := s.bmc.(flags := s.bmc.flags.(readyCpld := true)));
    PostUpdateCases(b, s, e);
    PromotionDue(b, s, if s.cpldPending then t else s);
    PlatformResetEnters(b, if s.cpldPending then t else s, e);
    EntersLike(s, if s.cpldPending then t else s, PlatformReset(b, if s.cpldPending then t else s, e), 1, 1);
    AloneEnters(b, s, e.forceBmc);
    BmcOnlyResetSparesPch(b, s, e.forceBmc);
    BmcResetCases(b, s, seen, e);
  }

  lemma PostUpdateCases(b: Board, s: State, e: Pins)
    requires Sized(b, s)
    ensures var due := s.booted == {BmcPart, Me, Acm, Ibb, Obb} && (s.bmc.flags.pending || s.pch.flags.pending || s.cpldPending);
            var t := if s.cpldPending then s.(bmc := s.bmc.(flags := s.bmc.flags.(readyCpld := true))) else s;
            && Sized(b, t) && PostUpdate(b, s, e) == if due then PlatformReset(b, t, e) else s
    ensures var t := if s.cpldPending then s.(bmc := s.bmc.(flags := s.bmc.flags.(readyCpld := true))) else s;
            t.mode == s.mode && t.provisioned == s.provisioned && t.log == s.log
  {
    hide PlatformReset;
  }

  lemma BmcResetCases(b: Board, s: State, seen: bool, e: Pins)
    requires Sized(b, s)
    ensures BmcReset(b, s, seen, e) == if BmcPart in s.booted && seen then BmcOnlyReset(b, s, e.forceBmc) else s
  {
    hide Sized, BmcOnlyReset;
  }

  // A recovery update that is due is given up when the staged capsule is not authentic or not the one that the
  // active image came from: that counts as a failed attempt, and nothing else changes
  lemma PromotionTurnedDown(b: Board, s: State, dev: Dev)
    requires Sized(b, s) && Of(s, dev).flags.pending && IsPage(s.page) && LaidOut(b.Map(dev), |Of(s, dev).mem|)
    requires var m, cfg := Of(s, dev).mem, b.Map(dev); !ValidAt(b.d, s.page, m, 1024 * cfg.staging) || !SameManifestHash(m, cfg)
    ensures var side := Of(s, dev);
            PendingUpdate(b, s, dev) == Put(s, dev, side.(attempts := side.attempts + 1, flags := side.flags.(pending := false)))
  {
    SameHashIs(Of(s, dev).mem, b.Map(dev));
    hide ValidAt, HashesMatch, SameManifestHash, Sized, LaidOut, IsPage;
  }

  // On a platform that is not provisioned a reset authenticates nothing: each component leaves it unless its
  // flash, or for the PCH the BMC's, was found to have failed altogether; no flash is touched and no timer started
  lemma UnprovisionedReleases(b: Board, s: State, e: Pins)
    requires Sized(b, s) && s.mode == Running && !s.provisioned && !s.bmc.flags.allFailed
    ensures var r := PlatformReset(b, s, e);
            && r.mode == Running && SameFlashes(s, r) && r.armed == s.armed && r.booted == s.booted && !r.bmc.held
            && (r.pch.held <==> s.pch.flags.allFailed)
  {
    PlatformResetIs(b, s, e);
    hide PlatformReset, Tmin1, Sized;
  }

  // ---------------------------------------------------------------- a capsule for the other flash

  // What becomes of the PCH capsule 32MB into the staging region of the BMC flash: a refused one counts as a
  // failed attempt of the BMC, a certificate stops its key. One that may proceed is copied to the PCH staging
  // region, and the PCH's register gets the PCH bits and the dynamic bit besides what it had; but for a recovery
  // update of a PCH flash without a valid recovery image, the promotion is made due instead.
  lemma HandOverOutcome(b: Board, s: State, v: Verdict)
    requires Sized(b, s) && IsPage(s.page) && Asks(s.bmc.intent, Pch)
    requires 1024 * b.bmc.staging + 0x200_0000 / 4 + 256 <= |s.bmc.mem|
    requires v == Check(b.d, s.page, s.bmc.mem, 1024 * b.bmc.staging + 0x200_0000 / 4, BitsFor(s.bmc.intent, Pch), s.pch.svn, s.bmc.svn)
    ensures var i, r, from := s.bmc.intent, PrepForOob(b, s), 1024 * b.bmc.staging + 0x200_0000 / 4;
            && (v == Refused ==> r == s.(bmc := s.bmc.(attempts := s.bmc.attempts + 1)))
            && (v.CancelsKey? ==> v.id <= 127 && r == s.(page := KeyCancelled(s.page, v.pcType, v.id)))
            && (v == Proceeds && CanHandOver(s.pch.mem, s.bmc.mem, from, b.pch.staging) ==>
                  var mem := CopiedTo(s.pch.mem, s.bmc.mem, from, b.pch.staging);
                  var o := s.pch.intent;
                  r == s.(log := s.log + [Written(Pch)],
                          pch := if i.pchRecovery && s.pch.flags.recoveryFailed then
                                   s.pch.(mem := mem, flags := s.pch.flags.(pending := true))
                                 else
                                   s.pch.(mem := mem, intent := o.(pchActive := o.pchActive || i.pchActive,
                                                                   pchRecovery := o.pchRecovery || i.pchRecovery,
                                                                   dynamic := o.dynamic || i.dynamic))))
  {
    assert b.StagedPch() == 1024 * b.bmc.staging + 0x200_0000 / 4;
    StagingFits(b, s, Bmc);
    BmcIs(s);
    ExamineIs(b, s, Bmc, b.StagedPch(), s.bmc.intent.OnlyPchFw());
    BitsAre(s.bmc.intent, Pch);
    OutcomeIs(b, s, v);
    hide *;
  }

  lemma BmcIs(s: State)
    ensures Of(s, Bmc) == s.bmc && Of(s, Pch) == s.pch && (Asks(s.bmc.intent, Pch) <==> s.bmc.intent.PchFw())
    ensures (if Pch == Bmc then s.bmc.intent.OnlyBmcFw() else s.bmc.intent.OnlyPchFw()) == s.bmc.intent.OnlyPchFw()
  {
  }

  lemma OutcomeIs(b: Board, s: State, v: Verdict)
    requires Sized(b, s) && s.bmc.intent.PchFw() && b.StagedPch() + 514 <= |s.bmc.mem| && IsPage(s.page)
    requires v == Examine(b, s, Bmc, b.StagedPch(), s.bmc.intent.OnlyPchFw())
    ensures var i, r, from := s.bmc.intent, PrepForOob(b, s), b.StagedPch();
            && (v == Refused ==> r == s.(bmc := s.bmc.(attempts := s.bmc.attempts + 1)))
            && (v.CancelsKey? ==> v.id <= 127 && r == s.(page := KeyCancelled(s.page, v.pcType, v.id)))
            && (v == Proceeds && CanHandOver(s.pch.mem, s.bmc.mem, from, b.pch.staging) ==>
                  var mem := CopiedTo(s.pch.mem, s.bmc.mem, from, b.pch.staging);
                  var o := s.pch.intent;
                  r == s.(log := s.log + [Written(Pch)],
                          pch := if i.pchRecovery && s.pch.flags.recoveryFailed then
                                   s.pch.(mem := mem, flags := s.pch.flags.(pending := true))
                                 else
                                   s.pch.(mem := mem, intent := o.(pchActive := o.pchActive || i.pchActive,
                                                                   pchRecovery := o.pchRecovery || i.pchRecovery,
                                                                   dynamic := o.dynamic || i.dynamic))))
  {
    hide Sized, Examine, CanHandOver, CopiedTo, KeyCancelled, IsPage;
  }

  // ---------------------------------------------------------------- who writes a flash

  // The flash of a component changes in no step but one that puts the component into reset, and one in which the
  // component, running, writes it itself
  lemma FlashChangesInReset(b: Board, s: State, i: Input, e: Pins, dev: Dev)
    requires Sized(b, s) && Safe(b, s) && s.mode == Running && s.provisioned && !i.PowerUp?
    ensures var r := Step(b, s, i, e);
            || Of(r, dev).mem == Of(s, dev).mem
            || Count(r.log, Entered(dev, true)) > Count(s.log, Entered(dev, true))
            || (i.FlashWritten? && i.dev == dev && !Of(s, dev).held && Of(r, dev).mem == i.mem)
  {
    hide *;
    Sides(b, s);
    Sides(b, Step(b, s, i, e));
    StepCases(b, s, i, e, dev);
    PollIs(b, s, i, e);
    SafeFacts(b, s);
    KeptBy(s, s, dev);
    match i
    case PollPlatformReset(counting) => SeenKeepsFlash(s, counting, dev);
    case PollBmcTimer(expired, chk) => BmcTimerKeepsFlash(b, s, expired, chk, e, dev);
    case PollMeTimer(expired, ready) => MeTimerKeepsFlash(b, s, expired, ready, e, dev);
    case PollAcmBiosTimer(expired, bios, acm) => BiosTimerKeepsFlash(b, s, expired, bios, acm, e, dev);
    case PollBmcIntent => BmcIntentKeepsFlash(b, s, e, dev);
    case PollPchIntent => PchIntentKeepsFlash(b, s, e, dev);
    case PollBmcReset(seen) => OthersKeepFlash(b, s, seen, e, dev);
    case PollPostUpdate => OthersKeepFlash(b, s, false, e, dev);
    case _ =>
  }

  // The flash is as it was, or the component was put into reset
  predicate Kept(s: State, r: State, dev: Dev) {
    Of(r, dev).mem == Of(s, dev).mem || Count(r.log, Entered(dev, true)) > Count(s.log, Entered(dev, true))
  }

  lemma KeptBy(s: State, r: State, dev: Dev)
    requires SameFlashes(s, r) || Enters(s, r, 1, 1) || r == s || (Enters(s, r, 1, 0) && r.pch == s.pch) || (Enters(s, r, 0, 1) && r.bmc == s.bmc)
    ensures Kept(s, r, dev)
  {
    hide Count;
  }

  lemma StepCases(b: Board, s: State, i: Input, e: Pins, dev: Dev)
    requires Sized(b, s) && s.mode == Running && s.provisioned && !i.PowerUp?
    ensures var r := Step(b, s, i, e);
            if i.IntentWritten? || i.DataProvisioned? then Of(r, dev).mem == Of(s, dev).mem
            else if i.FlashWritten? then Of(r, dev).mem == Of(s, dev).mem || (i.dev == dev && !Of(s, dev).held && Of(r, dev).mem == i.mem)
            else r == Poll(b, s, i, e)
    ensures var r, x := Step(b, s, i, e), Entered(dev, true);
            Kept(s, r, dev) <==> (Of(r, dev).mem == Of(s, dev).mem || Count(r.log, x) > Count(s.log, x))
  {
    hide Sized, Poll, Count;
  }

  lemma SeenKeepsFlash(s: State, counting: bool, dev: Dev)
    ensures Kept(s, PlatformResetSeen(s, counting), dev)
  {
    KeptBy(s, PlatformResetSeen(s, counting), dev);
    hide Count;
  }

  lemma TriggerKeepsFlash(b: Board, s: State, which: Dev, e: Pins, dev: Dev)
    requires Sized(b, s) && Safe(b, s) && s.mode == Running && s.provisioned
    ensures Kept(s, TriggerWdt(b, s, which, e), dev)
  {
    hide *;
    var t := Put(s, which, Of(s, which).(flags := CLEAR.(requireWdt := true)));
    TriggerCases(b, s, which, e);
    if TriggerWdt(b, s, which, e) != s.(enabled := s.enabled - Timers(which)) {
      SafeAsked(b, s, which);
      SafeFacts(b, t);
      PlatformResetEnters(b, t, e);
      EntersLike(s, t, PlatformReset(b, t, e), 1, 1);
    }
    KeptBy(s, TriggerWdt(b, s, which, e), dev);
  }

  lemma TriggerCases(b: Board, s: State, which: Dev, e: Pins)
    requires Sized(b, s)
    ensures var t, r := Put(s, which, Of(s, which).(flags := CLEAR.(requireWdt := true))), TriggerWdt(b, s, which, e);
            && Sized(b, t) && t.mode == s.mode && t.provisioned == s.provisioned && t.log == s.log
            && (r == s.(enabled := s.enabled - Timers(which)) || (Of(s, which).level & 0x1C != 0 && r == PlatformReset(b, t, e)))
    ensures SameFlashes(s, s.(enabled := s.enabled - Timers(which)))
  {
    hide PlatformReset;
  }

  lemma SafeAsked(b: Board, s: State, which: Dev)
    requires Safe(b, s) && s.mode == Running && Of(s, which).level & 0x1C != 0
    ensures Safe(b, Put(s, which, Of(s, which).(flags := CLEAR.(requireWdt := true))))
  {
    LevelsAre(b, s, which);
    if Leveled(Of(s, which)) {
      LevelBits(Of(s, which));
    }
    RequestKeeps(b, s, Put(s, which, Of(s, which).(flags := CLEAR.(requireWdt := true))), which);
    hide Safe;
  }

  lemma LevelsAre(b: Board, s: State, which: Dev)
    requires Safe(b, s)
    ensures Leveled(Of(s, which))
  {
    hide GoodLog, Leveled;
  }

  lemma BmcTimerKeepsFlash(b: Board, s: State, expired: bool, chk: Checkpoint, e: Pins, dev: Dev)
    requires Sized(b, s) && Safe(b, s) && s.mode == Running && s.provisioned
    ensures Kept(s, BmcWatchdog(b, s, expired, chk, e), dev)
  {
    TriggerKeepsFlash(b, s, Bmc, e, dev);
    hide Sized, Safe, TriggerWdt, Count;
  }

  lemma MeTimerKeepsFlash(b: Board, s: State, expired: bool, ready: bool, e: Pins, dev: Dev)
    requires Sized(b, s) && Safe(b, s) && s.mode == Running && s.provisioned
    ensures Kept(s, MeWatchdog(b, s, expired, ready, e), dev)
  {
    TriggerKeepsFlash(b, s, Pch, e, dev);
    hide Sized, Safe, TriggerWdt, Count;
  }

  lemma BiosTimerKeepsFlash(b: Board, s: State, expired: bool, bios: Checkpoint, acm: Checkpoint, e: Pins, dev: Dev)
    requires Sized(b, s) && Safe(b, s) && s.mode == Running && s.provisioned
    ensures Kept(s, AcmBiosWatchdog(b, s, expired, bios, acm, e), dev)
  {
    var t := BiosProgress(s, bios);
    BiosProgressKeeps(b, s, bios);
    BiosProgressFits(b, s, bios);
    ProgressKeeps(s, bios, dev);
    TriggerKeepsFlash(b, t, Pch, e, dev);
    hide Sized, Safe, TriggerWdt, Count, BiosProgress;
  }

  lemma ProgressKeeps(s: State, bios: Checkpoint, dev: Dev)
    ensures var t := BiosProgress(s, bios); Of(t, dev).mem == Of(s, dev).mem && t.provisioned == s.provisioned
  {
  }

  lemma BmcIntentKeepsFlash(b: Board, s: State, e: Pins, dev: Dev)
    requires Sized(b, s) && Safe(b, s) && s.mode == Running && s.provisioned
    ensures Kept(s, BmcIntent(b, s, e), dev)
  {
    hide *;
    if s.bmc.intent.Any() && !s.bmc.intent.atReset {
      BmcIntentEnters(b, s, e);
      DroppedSame(s);
    } else {
      NotRead(b, s, e);
    }
    KeptBy(s, BmcIntent(b, s, e), dev);
  }

  lemma DroppedSame(s: State)
    ensures forall due: bool :: SameFlashes(s, BmcDropped(s, due)) && SameFlashes(s, PchDropped(s, due))
  {
  }

  lemma NotRead(b: Board, s: State, e: Pins)
    requires Sized(b, s)
    ensures !s.bmc.intent.Any() || s.bmc.intent.atReset ==> BmcIntent(b, s, e) == s
    ensures !s.pch.intent.Any() || s.pch.intent.atReset ==> PchIntent(b, s, e) == s
  {
    hide Sized, PlatformReset, BmcOnlyReset, PchOnlyReset;
  }

  lemma PchIntentKeepsFlash(b: Board, s: State, e: Pins, dev: Dev)
    requires Sized(b, s) && Safe(b, s) && s.mode == Running && s.provisioned
    ensures Kept(s, PchIntent(b, s, e), dev)
  {
    hide *;
    if s.pch.intent.Any() && !s.pch.intent.atReset {
      PchIntentEnters(b, s, e);
      DroppedSame(s);
    } else {
      NotRead(b, s, e);
    }
    KeptBy(s, PchIntent(b, s, e), dev);
  }

  lemma OthersKeepFlash(b: Board, s: State, seen: bool, e: Pins, dev: Dev)
    requires Sized(b, s) && Safe(b, s) && s.mode == Running && s.provisioned
    ensures Kept(s, BmcReset(b, s, seen, e), dev) && Kept(s, PostUpdate(b, s, e), dev)
  {
    hide *;
    OtherResets(b, s, seen, e);
    KeptBy(s, BmcReset(b, s, seen, e), dev);
    KeptBy(s, PostUpdate(b, s, e), dev);
  }
}
