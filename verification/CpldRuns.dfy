/**
 CPLD updates in runs of the platform: from the intent to the reconfiguration, and from a completed boot
 to the promotion of the capsule.
 */
module CpldRuns {
  import opened NorFlash
  import opened SpiRwUtils
  import opened Ufm
  import opened Authentication
  import opened PfmValidation
  import opened CapsuleValidation
  import opened FlashValidation
  import opened Platform
  import opened PlatformLog
  import opened PlatformWork
  import opened PlatformSteps
  import opened PlatformEffects
  import opened UpdateLaws
  import opened UpdateRuns
  import CpldUpdate
  import CpldPromotion
  import CpldLaws

  // ---------------------------------------------------------------- from the intent on

  // The bits a CPLD capsule is checked against
  function CpldBits(i: Intent): Word { (if i.cpldActive then 4 else 0) | (if i.cpldRecovery then 0x20 else 0) }

  // What check_capsule_before_update says of the CPLD capsule, 48MB into the staging region
  ghost predicate CpldSays(b: Board, s: State, i: Intent, v: Verdict) {
    var m, at := s.bmc.mem, 1024 * b.bmc.staging + 0x300_0000 / 4;
    IsPage(s.page) && at + 256 <= |m| && v == Check(b.d, s.page, m, at, CpldBits(i), s.pch.svn, s.bmc.svn)
  }

  // Only a CPLD update is asked for, and no firmware update is due
  predicate OnlyCpldAsked(s: State) {
    var i := s.bmc.intent;
    && (i.cpldActive || i.cpldRecovery) && !i.bmcActive && !i.bmcRecovery && !i.pchActive && !i.pchRecovery && !i.atReset
    && s.pch.intent == NONE && Quiet(s.bmc) && Quiet(s.pch) && s.bmc.attempts < 3
  }

  lemma CpldBitsAre(i: Intent)
    ensures i.OnlyCpld().Word() == CpldBits(i)
  {
    NoOtherBits(if i.cpldActive then 4 else 0, if i.cpldRecovery then 0x20 else 0);
  }

  lemma NoOtherBits(active: Word, recovery: Word)
    ensures 0 | 0 | active | 0 | 0 | recovery == active | recovery
  {
  }

  lemma CpldSaysIs(b: Board, s: State, i: Intent, v: Verdict)
    requires Sized(b, s) && CpldSays(b, s, i, v)
    ensures b.StagedCpld() + 514 <= |s.bmc.mem| && v == Examine(b, s, Bmc, b.StagedCpld(), i.OnlyCpld())
  {
    StagingFits(b, s, Bmc);
    Sides(b, s);
    ExamineIs(b, s, Bmc, b.StagedCpld(), i.OnlyCpld());
    CpldBitsAre(i);
    assert b.StagedCpld() == 1024 * b.bmc.staging + 0x300_0000 / 4;
    hide Examine, Check, Sized, CpldBits, Intent.OnlyCpld, Intent.Word;
  }

  lemma CpldSaysAlike(b: Board, s: State, t: State, i: Intent, v: Verdict)
    requires CpldSays(b, s, i, v) && SameFlashes(s, t) && t.pch.svn == s.pch.svn && t.bmc.svn == s.bmc.svn
    ensures CpldSays(b, t, i, v)
  {
    hide Check, CpldBits;
  }

  // The work on the BMC flash for such an intent: the capsule is examined; one that may proceed starts the
  // reconfiguration, and makes the promotion due if a recovery update was asked for; a decommission capsule
  // erases the provisioned data; any other is counted or acted upon, and the flash authenticated as usual
  lemma CpldInT1(b: Board, s: State, force: bool, v: Verdict)
    requires Sized(b, s) && s.mode == Running && OnlyCpldAsked(s) && CpldSays(b, s, s.bmc.intent, v)
    ensures var i, t, r := s.bmc.intent, Noted(Acting(s, Bmc), CpldExamined), OperateOn(b, s, Bmc, force);
            && Sized(b, t)
            && (v == Proceeds ==>
                  r == t.(cpldPending := s.cpldPending || i.cpldRecovery, mode := Reconfiguring, log := t.log + [Reconfigured(false)]))
            && (v == Decommissions ==>
                  r == t.(page := ErasedPage(), provisioned := false, mode := Reconfiguring, log := t.log + [Decommissioned, Reconfigured(false)]))
            && (v == Refused ==>
                  var x := t.(bmc := t.bmc.(attempts := s.bmc.attempts + 1));
                  Sized(b, x) && r == Authenticated(b, x, Bmc, force))
  {
    hide *;
    OnlyCpldParts(s);
    ActingFits(b, s, Bmc);
    NoRequest(b, s, Bmc);
    OperateOnIs(b, s, Bmc, force);
    BeforeBmc(b, s);
    QuietedRuns(b, s, Bmc);
    CpldActs(b, s, v);
    var t := Acting(s, Bmc);
    NotingKeepsSize(b, t, CpldExamined);
    AttemptFits(b, Noted(t, CpldExamined), s.bmc.attempts + 1);
    Stops(s);
  }

  lemma Stops(s: State)
    ensures Acting(s, Bmc).mode == s.mode && Noted(Acting(s, Bmc), CpldExamined).mode == s.mode
  {
  }

  lemma AttemptFits(b: Board, t: State, n: nat)
    requires Sized(b, t)
    ensures Sized(b, t.(bmc := t.bmc.(attempts := n)))
  {
  }

  lemma OnlyCpldParts(s: State)
    requires OnlyCpldAsked(s)
    ensures !Of(s, Bmc).flags.requireWdt && !Pending(s)
  {
  }

  lemma CpldActs(b: Board, s: State, v: Verdict)
    requires Sized(b, s) && s.mode == Running && OnlyCpldAsked(s) && CpldSays(b, s, s.bmc.intent, v)
    requires Sized(b, Quieted(s, Bmc)) && Sized(b, Acting(s, Bmc))
    ensures var i, t, r := s.bmc.intent, Noted(Acting(s, Bmc), CpldExamined), ActOnBmc(b, Quieted(s, Bmc));
            && (v == Proceeds ==>
                  r == t.(cpldPending := s.cpldPending || i.cpldRecovery, mode := Reconfiguring, log := t.log + [Reconfigured(false)]))
            && (v == Decommissions ==>
                  r == t.(page := ErasedPage(), provisioned := false, mode := Reconfiguring, log := t.log + [Decommissioned, Reconfigured(false)]))
            && (v == Refused ==> r == t.(bmc := t.bmc.(attempts := s.bmc.attempts + 1)))
  {
    var q := Acting(s, Bmc);
    ActsOnCpld(b, s);
    ActingSvns(s);
    CpldSaysAlike(b, s, q, s.bmc.intent, v);
    CpldSaysIs(b, q, s.bmc.intent, v);
    CpldOutcome(b, q, s.bmc.intent, v);
    hide Sized, ActOnBmc, ActOnCpldIntent, CpldSays, Examine, Acting, Intent.OnlyCpld;
  }

  lemma ActsOnCpld(b: Board, s: State)
    requires Sized(b, s) && Sized(b, Quieted(s, Bmc)) && Sized(b, Acting(s, Bmc)) && s.mode == Running && OnlyCpldAsked(s)
    ensures ActOnBmc(b, Quieted(s, Bmc)) == ActOnCpldIntent(b, Acting(s, Bmc), s.bmc.intent)
  {
    assert Quieted(s, Bmc).(bmc := Quieted(s, Bmc).bmc.(intent := NONE)) == Acting(s, Bmc);
    ActingMode(s);
    hide Sized, FirmwareUpdate, ActOnCpldIntent, Acting;
  }

  lemma ActingMode(s: State)
    ensures Acting(s, Bmc).mode == s.mode
  {
  }

  lemma ActingSvns(s: State)
    requires OnlyCpldAsked(s)
    ensures var q := Acting(s, Bmc);
            && SameFlashes(s, q) && q.pch.svn == s.pch.svn && q.bmc.svn == s.bmc.svn && q.pch.intent == NONE && !Pending(q)
            && q.bmc.attempts == s.bmc.attempts && q.cpldPending == s.cpldPending
  {
  }

  lemma CpldOutcome(b: Board, q: State, i: Intent, v: Verdict)
    requires Sized(b, q) && q.pch.intent == NONE && !Pending(q) && b.StagedCpld() + 514 <= |q.bmc.mem|
    requires v == Examine(b, q, Bmc, b.StagedCpld(), i.OnlyCpld())
    ensures var t, r := Noted(q, CpldExamined), ActOnCpldIntent(b, q, i);
            && (v == Proceeds ==>
                  r == t.(cpldPending := q.cpldPending || i.cpldRecovery, mode := Reconfiguring, log := t.log + [Reconfigured(false)]))
            && (v == Decommissions ==>
                  r == t.(page := ErasedPage(), provisioned := false, mode := Reconfiguring, log := t.log + [Decommissioned, Reconfigured(false)]))
            && (v == Refused ==> r == t.(bmc := t.bmc.(attempts := q.bmc.attempts + 1)))
  {
    var t := Noted(q, CpldExamined);
    NotingKeepsSize(b, q, CpldExamined);
    assert !Pending(t) && !q.pch.intent.PchFw();
    assert ActOnCpldIntent(b, q, i) == if v == Proceeds then TriggerCpld(t, i.cpldRecovery) else Examined(b, t, Bmc, v);
    assert v == Decommissions ==> Examined(b, t, Bmc, v).log == t.log + [Decommissioned, Reconfigured(false)];
    hide Sized, Examine, Intent.OnlyCpld, ErasedPage, ActOnCpldIntent;
  }

  // A CPLD update from its intent on, when the protect-in-transit check passes: with a capsule that may proceed
  // the device is reconfigured, with both components held in reset, both flashes as they are, and a promotion due
  // if a recovery update was asked for. A decommission capsule erases the provisioned data to the last bit, and
  // the device is reconfigured too. A refused capsule counts as a failed attempt, and both components leave reset
  // with their flashes as they are, if those are good.
  lemma CpldUpdateRuns(b: Board, s: State, e: Pins, v: Verdict)
    requires Sized(b, s) && s.mode == Running && s.provisioned && e.pitPasses && OnlyCpldAsked(s) && CpldSays(b, s, s.bmc.intent, v)
    ensures var i, r := s.bmc.intent, BmcIntent(b, s, e);
            && (v == Proceeds ==>
                  && r.mode == Reconfiguring && r.provisioned && SameFlashes(s, r) && r.bmc.held && r.pch.held && r.bmc.intent == NONE
                  && r.cpldPending == (s.cpldPending || i.cpldRecovery) && r.bmc.attempts == s.bmc.attempts)
            && (v == Decommissions ==>
                  && r.mode == Reconfiguring && !r.provisioned && r.bmc.held && r.pch.held && r.bmc.mem == s.bmc.mem && r.pch.mem == s.pch.mem
                  && |r.page| == 59 && forall k | 0 <= k < 59 :: r.page[k] == 0xFFFF_FFFF)
            && (v == Refused && !e.forceBmc && !e.forcePch && Good(b, s, Bmc) && Good(b, s, Pch) ==>
                  && r.mode == Running && !r.bmc.held && !r.pch.held && SameFlashes(s, r) && r.bmc.intent == NONE
                  && r.bmc.attempts == s.bmc.attempts + 1 && r.cpldPending == s.cpldPending)
  {
    hide *;
    var i, t := s.bmc.intent, HoldBoth(s);
    CpldPasses(s, i);
    BmcIntentIs(b, s, e);
    PlatformResetIs(b, s, e);
    BothSame(s);
    HeldAsks(b, s, t, i, v);
    Tmin1Is(b, t, e);
    NothingPrepared(b, t);
    OperateOnBothIs(b, t, e);
    CpldInT1(b, t, e.forceBmc, v);
    var q := Acting(t, Bmc);
    if v == Proceeds || v == Decommissions {
      Reconfigures(s, t, OperateOn(b, t, Bmc, e.forceBmc), v);
    }
    if v == Refused && !e.forceBmc && !e.forcePch && Good(b, s, Bmc) && Good(b, s, Pch) {
      GoodHeld(b, s, t);
      RefusedRuns(b, t, e);
      BothLeave(Tmin1(b, t, e));
      LeavesPending(Tmin1(b, t, e));
      StillTheSame(s, t, Tmin1(b, t, e));
    }
  }

  lemma StillTheSame(s: State, t: State, x: State)
    requires t.bmc == s.bmc.(held := true) && t.pch == s.pch.(held := true) && t.page == s.page && SameFlashes(t, x)
    ensures SameFlashes(s, EnterT0(x))
  {
  }

  lemma LeavesPending(x: State)
    ensures EnterT0(x).cpldPending == x.cpldPending && EnterT0(x).bmc.attempts == x.bmc.attempts
  {
  }

  lemma CpldPasses(s: State, i: Intent)
    requires OnlyCpldAsked(s) && i == s.bmc.intent
    ensures i.Any() && !i.atReset && BmcLetThrough(s) && BmcAsks(s) == s && (i.cpldActive || i.cpldRecovery)
  {
  }

  lemma HeldAsks(b: Board, s: State, t: State, i: Intent, v: Verdict)
    requires OnlyCpldAsked(s) && CpldSays(b, s, i, v) && i == s.bmc.intent
    requires t.bmc == s.bmc.(held := true) && t.pch == s.pch.(held := true) && t.page == s.page
    ensures OnlyCpldAsked(t) && CpldSays(b, t, i, v) && t.bmc.intent == i && t.bmc.attempts == s.bmc.attempts
  {
    CpldSaysAlike(b, s, t, i, v);
    hide CpldSays;
  }

  lemma NothingPrepared(b: Board, t: State)
    requires Sized(b, t) && OnlyCpldAsked(t) && t.mode == Running
    ensures Prepared(b, t) == t
  {
    AskedNothing(t);
    NothingDue(b, t);
    PreparedIs(b, t);
    NoPchBits(b, t);
    hide *;
  }

  lemma AskedNothing(t: State)
    requires OnlyCpldAsked(t)
    ensures !Pending(t) && !t.bmc.flags.readyCpld && !t.pch.flags.readyCpld
  {
  }

  lemma NoPchBits(b: Board, t: State)
    requires Sized(b, t) && OnlyCpldAsked(t)
    ensures PrepForOob(b, t) == t
  {
    hide Sized;
  }

  lemma Reconfigures(s: State, t: State, r: State, v: Verdict)
    requires t.bmc == s.bmc.(held := true) && t.pch == s.pch.(held := true) && t.page == s.page && t.provisioned && t == HoldBoth(s)
    requires var x := Noted(Acting(t, Bmc), CpldExamined);
             if v == Proceeds then
               r == x.(cpldPending := t.cpldPending || t.bmc.intent.cpldRecovery, mode := Reconfiguring, log := x.log + [Reconfigured(false)])
             else r == x.(page := ErasedPage(), provisioned := false, mode := Reconfiguring,
                          log := x.log + [Decommissioned, Reconfigured(false)])
    ensures r.mode == Reconfiguring && r.bmc.held && r.pch.held && r.bmc.mem == s.bmc.mem && r.pch.mem == s.pch.mem
    ensures if v == Proceeds then r.provisioned && SameFlashes(s, r) && r.bmc.intent == NONE && r.bmc.attempts == s.bmc.attempts
                                  && r.cpldPending == (s.cpldPending || s.bmc.intent.cpldRecovery)
            else !r.provisioned && |r.page| == 59 && forall k | 0 <= k < 59 :: r.page[k] == 0xFFFF_FFFF
  {
  }

  lemma GoodHeld(b: Board, s: State, t: State)
    requires t.bmc == s.bmc.(held := true) && t.pch == s.pch.(held := true) && t.page == s.page && Good(b, s, Bmc) && Good(b, s, Pch)
    ensures Good(b, t, Bmc) && Good(b, t, Pch)
  {
    hide ActiveValid, CapsuleValid, LaidOut;
  }

  // What a refused capsule comes to
  lemma RefusedRuns(b: Board, t: State, e: Pins)
    requires Sized(b, t) && t.mode == Running && OnlyCpldAsked(t) && CpldSays(b, t, t.bmc.intent, Refused)
    requires e == Pins(true, false, false) && Good(b, t, Bmc) && Good(b, t, Pch)
    ensures var r := Tmin1(b, t, e);
            && r.mode == Running && SameFlashes(t, r) && r.bmc.held == t.bmc.held && r.pch.held == t.pch.held && r.bmc.intent == NONE
            && !r.bmc.flags.allFailed && !r.pch.flags.allFailed && r.bmc.attempts == t.bmc.attempts + 1 && r.cpldPending == t.cpldPending
  {
    hide *;
    Sides(b, t);
    Tmin1Is(b, t, e);
    NothingPrepared(b, t);
    OperateOnBothIs(b, t, e);
    CpldInT1(b, t, false, Refused);
    var q := Noted(Acting(t, Bmc), CpldExamined);
    var x := q.(bmc := q.bmc.(attempts := t.bmc.attempts + 1));
    RefusedState(b, t, x);
    Sides(b, x);
    GoodStays(b, x, Bmc);
    var y := OperateOn(b, t, Bmc, false);
    Sides(b, y);
    RefusedThen(b, t, x, y, (x.bmc.mem[1024 * b.bmc.recovery + 513] & 0xFF) as nat, x.log + [Written(Bmc), Verified(Bmc, x.page, x.bmc.mem, false)]);
    PchUntouched(b, t, y);
    UpdateThenAuthenticate(b, y, Pch, false);
    var p := Acting(y, Pch);
    ActingSame(y, Pch);
    Sides(b, p);
    GoodIsWith(b, y, Pch);
    GoodIsWith(b, p, Pch);
    GoodStays(b, p, Pch);
    var r := OperateOn(b, y, Pch, false);
    PchThen(t, y, p, r, (p.pch.mem[1024 * b.pch.recovery + 513] & 0xFF) as nat, p.log + [Written(Pch), Verified(Pch, p.page, p.pch.mem, false)]);
  }

  lemma RefusedState(b: Board, t: State, x: State)
    requires var q := Noted(Acting(t, Bmc), CpldExamined); x == q.(bmc := q.bmc.(attempts := t.bmc.attempts + 1))
    requires Good(b, t, Bmc)
    ensures Good(b, x, Bmc) && x.mode == t.mode
  {
    hide ActiveValid, CapsuleValid, LaidOut;
  }

  lemma RefusedThen(b: Board, t: State, x: State, y: State, svn: nat, log: seq<Event>)
    requires var q := Noted(Acting(t, Bmc), CpldExamined); x == q.(bmc := q.bmc.(attempts := t.bmc.attempts + 1))
    requires y == Put(x, Bmc, x.bmc.(svn := svn, flags := x.bmc.flags.(recoveryFailed := false, allFailed := false))).(log := log)
    ensures y.mode == t.mode && SameFlashes(t, y) && y.pch == t.pch && y.bmc.held == t.bmc.held && y.bmc.intent == NONE
    ensures !y.bmc.flags.allFailed && y.bmc.attempts == t.bmc.attempts + 1 && y.cpldPending == t.cpldPending
  {
  }

  lemma PchUntouched(b: Board, t: State, y: State)
    requires y.pch == t.pch && SameFlashes(t, y) && Good(b, t, Pch) && OnlyCpldAsked(t)
    ensures Good(b, y, Pch) && y.pch.intent == NONE && !Asks(y.pch.intent, Pch) && !Of(y, Pch).flags.requireWdt
  {
    hide ActiveValid, CapsuleValid, LaidOut;
  }

  lemma PchThen(t: State, y: State, p: State, r: State, svn: nat, log: seq<Event>)
    requires p == Acting(y, Pch) && y.pch == t.pch && SameFlashes(t, y)
    requires r == Put(p, Pch, p.pch.(svn := svn, flags := p.pch.flags.(recoveryFailed := false, allFailed := false))).(log := log)
    ensures r.mode == y.mode && p.mode == y.mode && SameFlashes(t, r) && r.bmc == y.bmc && r.pch.held == t.pch.held && !r.pch.flags.allFailed
    ensures r.cpldPending == y.cpldPending
  {
  }

  // ---------------------------------------------------------------- after the next boot

  // A CPLD promotion is due, no firmware update is asked for or due, and both flashes will be good with the
  // minimum SVN raised and the capsule in the recovery area
  ghost predicate CpldPromotionReady(b: Board, s: State) {
    var at := 1024 * b.bmc.staging + 0x300_0000 / 4;
    && s.cpldPending && s.bmc.intent == NONE && s.pch.intent == NONE && IsPage(s.page)
    && !s.bmc.flags.pending && !s.bmc.flags.requireWdt && Quiet(s.pch)
    && at + 262144 <= 33292288 && 33554432 <= |s.bmc.mem|
    && GoodWith(b, SvnWritten(s.page, CpldPolicy, s.bmc.mem[at + 256] as nat), CpldPromotion.CopiedOver(s.bmc.mem, at), Bmc)
    && GoodWith(b, SvnWritten(s.page, CpldPolicy, s.bmc.mem[at + 256] as nat), s.pch.mem, Pch)
  }

  // The promotion of a CPLD capsule once every component has booted: the platform is reset; the 1MB from 0x7F00000
  // of the BMC flash are those of the staged capsule, word for word, and the rest of both flashes stays; the
  // minimum SVN is raised to the capsule's; the promotion is logged once and no longer due; both components leave
  // reset
  lemma CpldPromotionRuns(b: Board, s: State, e: Pins)
    requires Sized(b, s) && Safe(b, s) && s.mode == Running && s.provisioned && AllBooted(s) && CpldPromotionReady(b, s)
    requires e == Pins(true, false, false)
    ensures var at, m, r := 1024 * b.bmc.staging + 0x300_0000 / 4, s.bmc.mem, PostUpdate(b, s, e);
            && r.mode == Running && !r.bmc.held && !r.pch.held && !r.cpldPending && !r.bmc.flags.readyCpld
            && r.pch.mem == s.pch.mem && |r.bmc.mem| == |m| && at + 262144 <= |m| && IsPage(s.page)
            && (forall j: nat | j < |m| :: r.bmc.mem[j] == CpldLaws.CopiedFrom(m, at, j))
            && r.page == SvnWritten(s.page, CpldPolicy, m[at + 256] as nat)
  {
    hide *;
    var at := 1024 * b.bmc.staging + 0x300_0000 / 4;
    CpldReadyParts(b, s, at);
    CpldLaws.CopiedWords(s.bmc.mem, at);
    SafeReady(b, s);
    PromotionAsked(b, s, e);
    var s1 := s.(bmc := s.bmc.(flags := s.bmc.flags.(readyCpld := true)));
    PlatformResetIs(b, s1, e);
    var t := HoldBoth(s1);
    BothSame(s1);
    CpldHeld(s, s1, t);
    Tmin1Is(b, t, e);
    CpldPrepared(b, t, at);
    var x := Prepared(b, t);
    CpldPrepState(b, s, t, x, at);
    BothStay(b, x, e);
    var y := OperateOnBoth(b, x, e);
    AfterCpld(s, x, y);
    OperateKeepsPending(b, x, e);
    BothLeave(y);
    LeavesPending(y);
    FlashesAre(x, y);
  }

  lemma FlashesAre(s: State, r: State)
    requires SameFlashes(s, r)
    ensures r.bmc.mem == s.bmc.mem && r.pch.mem == s.pch.mem && r.page == s.page
  {
  }

  lemma CpldReadyParts(b: Board, s: State, at: nat)
    requires CpldPromotionReady(b, s) && at == 1024 * b.bmc.staging + 0x300_0000 / 4
    ensures CpldUpdate.AREA == 262144 && at + CpldUpdate.AREA <= CpldUpdate.RECOVERY && CpldUpdate.RECOVERY + CpldUpdate.AREA <= |s.bmc.mem|
    ensures IsPage(s.page) && at == b.StagedCpld() && at + 256 < |s.bmc.mem| && at + 262144 <= |s.bmc.mem|
    ensures s.cpldPending && s.bmc.intent == NONE && s.pch.intent == NONE && !s.bmc.flags.pending && !s.bmc.flags.requireWdt && Quiet(s.pch)
    ensures GoodWith(b, SvnWritten(s.page, CpldPolicy, s.bmc.mem[at + 256] as nat), CpldPromotion.CopiedOver(s.bmc.mem, at), Bmc)
    ensures GoodWith(b, SvnWritten(s.page, CpldPolicy, s.bmc.mem[at + 256] as nat), s.pch.mem, Pch)
  {
    hide GoodWith, SvnWritten, CpldPromotion.CopiedOver, Quiet;
  }

  lemma SafeReady(b: Board, s: State)
    requires Safe(b, s) && s.mode == Running
    ensures !s.bmc.flags.readyCpld && !s.pch.flags.readyCpld
  {
    hide GoodLog, Leveled;
  }

  lemma PromotionAsked(b: Board, s: State, e: Pins)
    requires Sized(b, s) && AllBooted(s) && s.cpldPending
    ensures var s1 := s.(bmc := s.bmc.(flags := s.bmc.flags.(readyCpld := true)));
            Sized(b, s1) && PostUpdate(b, s, e) == PlatformReset(b, s1, e) && s1.mode == s.mode && s1.provisioned == s.provisioned
  {
    hide PlatformReset;
  }

  lemma CpldHeld(s: State, s1: State, t: State)
    requires s1 == s.(bmc := s.bmc.(flags := s.bmc.flags.(readyCpld := true)))
    requires t.bmc == s1.bmc.(held := true) && t.pch == s1.pch.(held := true) && Quiet(s.pch)
    ensures t.bmc == s.bmc.(held := true, flags := s.bmc.flags.(readyCpld := true)) && t.pch == s.pch.(held := true)
    ensures t.bmc.mem == s.bmc.mem && t.bmc.flags.readyCpld && t.bmc.flags.pending == s.bmc.flags.pending && t.pch.flags == s.pch.flags
    ensures t.bmc.intent == s.bmc.intent && Quiet(t.pch)
  {
  }

  // The state with the capsule promoted
  lemma CpldPrepared(b: Board, t: State, at: nat)
    requires Sized(b, t) && t.mode == Running && t.bmc.intent == NONE && !t.bmc.flags.pending && t.bmc.flags.readyCpld && Quiet(t.pch)
    requires at == b.StagedCpld() && at + CpldUpdate.AREA <= CpldUpdate.RECOVERY && CpldUpdate.RECOVERY + CpldUpdate.AREA <= |t.bmc.mem|
    requires IsPage(t.page) && at + 256 < |t.bmc.mem|
    ensures Prepared(b, t)
         == t.(bmc := t.bmc.(mem := CpldPromotion.CopiedOver(t.bmc.mem, at), flags := t.bmc.flags.(readyCpld := false)),
               page := SvnWritten(t.page, CpldPolicy, t.bmc.mem[at + 256] as nat), cpldPending := false,
               log := t.log + [Written(Bmc), CpldPromoted])
  {
    hide *;
    Sides(b, t);
    PreparedIs(b, t);
    NoRequestForPch(b, t);
    NothingPending(b, t, Bmc);
    ProcessBothIs(b, t);
    PromoteIs(b, t, at);
  }

  lemma PromoteIs(b: Board, t: State, at: nat)
    requires Sized(b, t) && at == b.StagedCpld() && at + CpldUpdate.AREA <= CpldUpdate.RECOVERY
    requires CpldUpdate.RECOVERY + CpldUpdate.AREA <= |t.bmc.mem| && IsPage(t.page) && at + 256 < |t.bmc.mem|
    ensures PromoteCpld(b, t)
         == t.(bmc := t.bmc.(mem := CpldPromotion.CopiedOver(t.bmc.mem, at), flags := t.bmc.flags.(readyCpld := false)),
               page := SvnWritten(t.page, CpldPolicy, t.bmc.mem[at + 256] as nat), cpldPending := false,
               log := t.log + [Written(Bmc), CpldPromoted])
  {
    hide Sized, CpldPromotion.CopiedOver, SvnWritten, IsPage;
  }

  lemma ProcessBothIs(b: Board, t: State)
    requires Sized(b, t) && t.mode == Running && t.bmc.flags.readyCpld && Quiet(t.pch) && PendingUpdate(b, t, Bmc) == t
    ensures ProcessBoth(b, t) == PromoteCpld(b, t)
  {
    var x := PromoteCpld(b, t);
    PromoteKeepsPch(b, t);
    Sides(b, x);
    Sides(b, t);
    NothingPending(b, x, Pch);
    hide Sized, PromoteCpld, PendingUpdate;
  }

  lemma PromoteKeepsPch(b: Board, t: State)
    requires Sized(b, t)
    ensures PromoteCpld(b, t).pch == t.pch && PromoteCpld(b, t).mode == t.mode
  {
    hide Sized, CpldPromotion.CopiedOver, SvnWritten;
  }

  lemma CpldPrepState(b: Board, s: State, t: State, x: State, at: nat)
    requires t.bmc == s.bmc.(held := true, flags := s.bmc.flags.(readyCpld := true)) && t.pch == s.pch.(held := true) && t.page == s.page
    requires t.mode == Running && s.bmc.intent == NONE && s.pch.intent == NONE && !s.bmc.flags.pending && !s.bmc.flags.requireWdt && Quiet(s.pch)
    requires at + CpldUpdate.AREA <= CpldUpdate.RECOVERY && CpldUpdate.RECOVERY + CpldUpdate.AREA <= |s.bmc.mem| && at + 256 < |s.bmc.mem|
    requires IsPage(s.page)
    requires var mem, page := CpldPromotion.CopiedOver(s.bmc.mem, at), SvnWritten(s.page, CpldPolicy, s.bmc.mem[at + 256] as nat);
             && GoodWith(b, page, mem, Bmc) && GoodWith(b, page, s.pch.mem, Pch)
             && x == t.(bmc := t.bmc.(mem := mem, flags := t.bmc.flags.(readyCpld := false)), page := page, cpldPending := false, log := x.log)
    ensures x.mode == Running && Quiet(x.bmc) && Quiet(x.pch) && x.bmc.intent == NONE && x.pch.intent == NONE && Good(b, x, Bmc) && Good(b, x, Pch)
    ensures x.bmc.held && x.pch.held && !x.cpldPending && x.pch.mem == s.pch.mem && x.bmc.mem == CpldPromotion.CopiedOver(s.bmc.mem, at)
    ensures x.page == SvnWritten(s.page, CpldPolicy, s.bmc.mem[at + 256] as nat)
  {
    GoodIsWith(b, x, Bmc);
    GoodIsWith(b, x, Pch);
    hide GoodWith, Good, CpldPromotion.CopiedOver, SvnWritten, IsPage;
  }

  lemma AfterCpld(s: State, x: State, y: State)
    requires y.mode == Running && SameFlashes(x, y) && StaysGood(x.bmc, y.bmc) && StaysGood(x.pch, y.pch) && Quiet(x.bmc) && Quiet(x.pch)
    requires x.bmc.held && x.pch.held && x.pch.mem == s.pch.mem
    ensures y.bmc.held && y.pch.held && !y.bmc.flags.allFailed && !y.pch.flags.allFailed && !y.bmc.flags.readyCpld && y.pch.mem == s.pch.mem
  {
  }

  // Work on two flashes with nothing asked for leaves the status word alone
  lemma OperateKeepsPending(b: Board, s: State, e: Pins)
    requires Sized(b, s) && s.mode == Running && !e.forceBmc && !e.forcePch && Quiet(s.bmc) && Quiet(s.pch)
    requires s.bmc.intent == NONE && s.pch.intent == NONE && Good(b, s, Bmc) && Good(b, s, Pch)
    ensures OperateOnBoth(b, s, e).cpldPending == s.cpldPending
  {
    hide *;
    OperateOnBothIs(b, s, e);
    NothingAsked(s);
    BothStay(b, s, e);
    Sides(b, s);
    UpdateThenAuthenticate(b, s, Bmc, false);
    AuthenticatedStatus(b, Acting(s, Bmc), Bmc);
    var t := OperateOn(b, s, Bmc, false);
    ActingStatus(s);
    WorkOnBmc(b, s);
    Sides(b, t);
    UpdateThenAuthenticate(b, t, Pch, false);
    AuthenticatedStatus(b, Acting(t, Pch), Pch);
    ActingStatus(t);
  }

  lemma ActingStatus(s: State)
    ensures Acting(s, Bmc).cpldPending == s.cpldPending && Acting(s, Pch).cpldPending == s.cpldPending
    ensures Acting(s, Bmc).mode == s.mode && Acting(s, Pch).mode == s.mode && Acting(s, Bmc).pch == s.pch
  {
  }

  lemma AuthenticatedStatus(b: Board, s: State, dev: Dev)
    requires Sized(b, s)
    ensures Authenticated(b, s, dev, false).cpldPending == s.cpldPending
    ensures Of(Authenticated(b, s, dev, false), Other(dev)) == Of(s, Other(dev))
  {
    hide Sized, Workable, Authenticate, PfmSvn;
  }

  lemma WorkOnBmc(b: Board, s: State)
    requires Sized(b, s) && s.mode == Running && Quiet(s.bmc) && Quiet(s.pch) && s.bmc.intent == NONE
    ensures OperateOn(b, s, Bmc, false).pch == s.pch
  {
    hide *;
    NothingAsked(s);
    Sides(b, s);
    UpdateThenAuthenticate(b, s, Bmc, false);
    AuthenticatedStatus(b, Acting(s, Bmc), Bmc);
    ActingStatus(s);
    Sides(b, Acting(s, Bmc));
    Sides(b, OperateOn(b, s, Bmc, false));
  }
}
