/**
 What the platform state machine keeps in every run: no component leaves reset without a verified
 image, watchdog recoveries are bounded, no reconfiguration starts over a pending firmware recovery
 update, CPLD capsules are promoted only after a timed boot, minimum SVNs and cancelled keys last, and
 deferred CPLD intents are not lost.
 */
module PlatformSafety {
  import opened NorFlash
  import opened Ufm
  import opened Authentication
  import opened Pfm
  import opened Decompression
  import opened Rebuild
  import opened PfmValidation
  import opened CapsuleValidation
  import opened FlashValidation
  import opened Platform
  import opened PlatformLog
  import opened PlatformWork
  import opened PlatformSteps

  // ---------------------------------------------------------------- runs

  // From outside, the provisioned data only has bits cleared: by a provisioning command, or by a write that
  // losing power cut short
  ghost predicate OnlyClears(s: State, i: Input) {
    match i
    case PowerUp(_, _, page, _, _) => OnlyCleared(s.page, page)
    case DataProvisioned(page, _) => OnlyCleared(s.page, page)
    case _ => true
  }

  lemma PowerUpKeeps(b: Board, s: State, i: Input, e: Pins)
    requires Sized(b, s) && Safe(b, s) && SameParts(s, i)
    ensures Sized(b, PoweredUp(b, s, i))
    ensures var r := PlatformReset(b, PoweredUp(b, s, i), e);
            && Safe(b, r) && Count(r.log, CpldPromoted) == Count(s.log, CpldPromoted) && (OnlyClears(s, i) ==> DataKept(s, r))
  {
    hide *;
    PoweredUpSound(b, s, i);
    var t := PoweredUp(b, s, i);
    PlatformResetKeeps(b, t, e);
    if OnlyClears(s, i) {
      DataKeptTwice(s, t, PlatformReset(b, t, e));
    }
  }

  lemma PoweredUpSound(b: Board, s: State, i: Input)
    requires Sized(b, s) && Safe(b, s) && SameParts(s, i)
    ensures var t := PoweredUp(b, s, i);
            && Sized(b, t) && Sound(b, t) && t.mode == Running && !t.bmc.flags.readyCpld && t.log == s.log
            && (OnlyClears(s, i) ==> DataKept(s, t))
  {
    FreshLeveled(i.bmc);
    FreshLeveled(i.pch);
    hide Leveled, Fresh, OnlyCleared, Count, GoodLog;
    if OnlyClears(s, i) {
      ClearedData(s, PoweredUp(b, s, i));
    }
  }

  lemma FreshLeveled(m: Mem)
    ensures Leveled(Fresh(m)) && Fresh(m).flags == CLEAR
  {
  }

  lemma OwnerKeeps(b: Board, s: State, dev: Dev, mem: Mem)
    requires Sized(b, s) && Safe(b, s)
    ensures Keeps(b, s, RewrittenByOwner(b, s, dev, mem))
  {
    MemKeepsLevel(Of(s, dev), mem);
    CountOne(s.log, Written(dev), CpldPromoted);
    CountOne(s.log, Written(dev), Decommissioned);
    SameData(s, RewrittenByOwner(b, s, dev, mem));
    OneMoreKeepsGood(b, s.log, Written(dev));
    hide GoodLog, Leveled, Count, Sized, DataKept;
  }

  lemma MemKeepsLevel(side: Side, mem: Mem)
    ensures Leveled(side.(mem := mem)) <==> Leveled(side)
  {
  }

  lemma StepIs(b: Board, s: State, i: Input, e: Pins)
    requires Sized(b, s)
    ensures Step(b, s, i, e) ==
      if SameParts(s, i) then PlatformReset(b, PoweredUp(b, s, i), e)
      else if s.mode != Running then s
      else if i.IntentWritten? then Put(s, i.dev, Of(s, i.dev).(intent := i.intent))
      else if i.FlashWritten? then RewrittenByOwner(b, s, i.dev, i.mem)
      else if i.DataProvisioned? then (if IsPage(i.page) then s.(page := i.page, provisioned := i.provisioned) else s)
      else if s.provisioned then Poll(b, s, i, e)
      else s
  {
    hide PlatformReset, Poll, RewrittenByOwner, Sized, SameParts;
  }

  // A CPLD capsule is promoted only by the routine after an update, when every component has completed a
  // timed boot and the status word says that a CPLD update is under way
  ghost predicate PromotesOnlyAfterBoot(s: State, i: Input, r: State) {
    Count(r.log, CpldPromoted) != Count(s.log, CpldPromoted) ==>
      i.PollPostUpdate? && s.provisioned && s.mode == Running && AllBooted(s) && s.cpldPending
  }

  // Every step keeps what every state of a run satisfies
  lemma StepKeeps(b: Board, s: State, i: Input, e: Pins)
    requires Sized(b, s) && Safe(b, s)
    ensures var r := Step(b, s, i, e); Safe(b, r) && PromotesOnlyAfterBoot(s, i, r) && (OnlyClears(s, i) ==> DataKept(s, r))
  {
    StepIs(b, s, i, e);
    var r := Step(b, s, i, e);
    if s.mode == Running && s.provisioned && i.PollPostUpdate? {
      PollIs(b, s, i, e);
      hide *;
      PostUpdateStep(b, s, i, e);
    } else {
      assert SameParts(s, i) ==> i.PowerUp?;
      hide *;
      OtherStep(b, s, i, e);
      NothingPromoted(s, i, r);
    }
  }

  lemma NothingPromoted(s: State, i: Input, r: State)
    requires Count(r.log, CpldPromoted) == Count(s.log, CpldPromoted)
    ensures PromotesOnlyAfterBoot(s, i, r)
  {
    hide Count;
  }

  lemma PostUpdateStep(b: Board, s: State, i: Input, e: Pins)
    requires Sized(b, s) && Safe(b, s) && s.mode == Running && s.provisioned && i.PollPostUpdate?
    ensures var r := Step(b, s, i, e); Safe(b, r) && PromotesOnlyAfterBoot(s, i, r) && DataKept(s, r)
  {
    StepIs(b, s, i, e);
    PollIs(b, s, i, e);
    PostUpdateKeeps(b, s, e);
    hide Sized, Safe, Step, Poll, PlatformReset, RewrittenByOwner, PoweredUp, Count, DataKept, PostUpdate;
  }

  // Every other step
  lemma OtherStep(b: Board, s: State, i: Input, e: Pins)
    requires Sized(b, s) && Safe(b, s) && !(s.mode == Running && s.provisioned && i.PollPostUpdate?)
    ensures var r := Step(b, s, i, e);
            Safe(b, r) && Count(r.log, CpldPromoted) == Count(s.log, CpldPromoted) && (OnlyClears(s, i) ==> DataKept(s, r))
  {
    hide *;
    StepIs(b, s, i, e);
    if SameParts(s, i) {
      PowerUpKeeps(b, s, i, e);
    } else if s.mode != Running {
      KeepsQuietly(b, s, s);
      KeepsParts(b, s, s);
    } else if i.IntentWritten? {
      IntentStep(b, s, i.dev, i.intent);
      KeepsParts(b, s, Put(s, i.dev, Of(s, i.dev).(intent := i.intent)));
    } else if i.FlashWritten? {
      OwnerKeeps(b, s, i.dev, i.mem);
      KeepsParts(b, s, RewrittenByOwner(b, s, i.dev, i.mem));
    } else if i.DataProvisioned? {
      ProvisionedStep(b, s, i);
    } else if s.provisioned {
      PollKeeps(b, s, i, e);
      KeepsParts(b, s, Poll(b, s, i, e));
    } else {
      KeepsQuietly(b, s, s);
      KeepsParts(b, s, s);
    }
  }

  lemma KeepsParts(b: Board, s: State, r: State)
    requires Keeps(b, s, r)
    ensures Safe(b, r) && Count(r.log, CpldPromoted) == Count(s.log, CpldPromoted) && DataKept(s, r)
  {
    hide Safe, Count, DataKept;
  }

  lemma IntentStep(b: Board, s: State, dev: Dev, i: Intent)
    requires Safe(b, s)
    ensures Keeps(b, s, Put(s, dev, Of(s, dev).(intent := i)))
  {
    IntentKeepsLevel(Of(s, dev), i);
    hide Safe, Leveled, Keeps;
    KeepsQuietly(b, s, Put(s, dev, Of(s, dev).(intent := i)));
  }

  lemma ProvisionedStep(b: Board, s: State, i: Input)
    requires Safe(b, s) && i.DataProvisioned?
    ensures var r := if IsPage(i.page) then s.(page := i.page, provisioned := i.provisioned) else s;
            Safe(b, r) && Count(r.log, CpldPromoted) == Count(s.log, CpldPromoted) && (OnlyClears(s, i) ==> DataKept(s, r))
  {
    SameData(s, s);
    hide Safe, Count, OnlyCleared, DataKept, Leveled;
    var r := s.(page := i.page, provisioned := i.provisioned);
    QuietStep(b, s, r);
    if OnlyClears(s, i) {
      ClearedData(s, r);
    }
  }

  lemma {:induction false} RunKeeps(b: Board, s: State, inputs: seq<(Input, Pins)>)
    requires Sized(b, s) && Safe(b, s)
    ensures Safe(b, RunAll(b, s, inputs))
    decreases |inputs|
  {
    hide Sized, Safe, Step;
    if inputs != [] {
      StepKeeps(b, s, inputs[0].0, inputs[0].1);
      RunKeeps(b, Step(b, s, inputs[0].0, inputs[0].1), inputs[1..]);
    }
  }

  lemma InitialSafe(b: Board, s: State)
    requires Initial(s)
    ensures Safe(b, s)
  {
    FreshLeveled(s.bmc.mem);
    FreshLeveled(s.pch.mem);
    hide Leveled;
  }

  // Release safety: in every run, a component that leaves reset was put into reset before, and since
  // then its flash was authenticated with the outcome that the active region is valid, left with the
  // contents it is released with, and not touched again; or the platform was not provisioned when the
  // component was put into reset
  lemma ReleasedOnlyVerified(b: Board, s: State, inputs: seq<(Input, Pins)>, k: nat)
    requires Sized(b, s) && Initial(s)
    requires var log := RunAll(b, s, inputs).log; k < |log| && log[k].Released?
    ensures var log := RunAll(b, s, inputs).log;
            || Unprovisioned(log[..k], log[k].dev)
            || exists v: nat :: VerifiedAt(b, log[..k], log[k].dev, log[k].mem, v)
  {
    InitialSafe(b, s);
    RunKeeps(b, s, inputs);
    var r := RunAll(b, s, inputs);
    hide Sized, Initial, RunAll, Unprovisioned, VerifiedAt, Leveled;
  }

  // What such a verification means. The active region was valid, or a capsule with authentic signatures
  // was there to rebuild it; and if authentic contents describe themselves, the released flash holds an
  // active region that authenticates
  lemma VerifiedMeans(b: Board, log: seq<Event>, dev: Dev, mem: Mem, v: nat)
    requires VerifiedAt(b, log, dev, mem, v)
    ensures var page, m, cfg, d := log[v].page, log[v].before, b.Map(dev), b.d;
            || ActiveValid(d, page, m, cfg.Active())
            || CapsuleValid(d, page, m, cfg.Recovery())
            || ValidAt(d, page, m, cfg.Staging())
    ensures Truthful(b.d, log[v].page, log[v].before, b.Map(dev)) ==>
              ActiveValid(b.d, Authenticate(b.d, log[v].page, log[v].before, b.Map(dev), log[v].force).page, mem, b.Map(dev).Active())
  {
    var page, m, cfg, force := log[v].page, log[v].before, b.Map(dev), log[v].force;
    assert IsPage(page) && LaidOut(cfg, |m|);
    assert Authenticate(b.d, page, m, cfg, force).active && Authenticate(b.d, page, m, cfg, force).mem == mem;
    hide *;
    AuthenticatedOrHeld(b.d, page, m, cfg, force);
    if Truthful(b.d, page, m, cfg) {
      AuthenticatedImageIsValid(b.d, page, m, cfg, force);
    }
  }

  // Watchdog recovery is bounded: in every run each level mask is 4 shifted by the number of watchdog
  // recoveries since the level was last reset, which never exceeds three, and a recovery is requested
  // only at the first three levels
  lemma WatchdogRecoveryIsBounded(b: Board, s: State, inputs: seq<(Input, Pins)>, dev: Dev)
    requires Sized(b, s) && Initial(s)
    ensures var side := Of(RunAll(b, s, inputs), dev);
            && side.recoveries <= 3 && side.level == [4, 8, 16, 32][side.recoveries]
            && (side.flags.requireWdt ==> side.level in {4, 8, 16})
  {
    InitialSafe(b, s);
    RunKeeps(b, s, inputs);
    hide Sized, Initial, RunAll, GoodLog;
  }

  // No reconfiguration, for a CPLD update or a decommission, starts while a firmware recovery update is
  // pending on either flash
  lemma NoReconfigurationWhilePending(b: Board, s: State, inputs: seq<(Input, Pins)>, k: nat)
    requires Sized(b, s) && Initial(s)
    requires var log := RunAll(b, s, inputs).log; k < |log| && log[k].Reconfigured?
    ensures !RunAll(b, s, inputs).log[k].pending
  {
    InitialSafe(b, s);
    RunKeeps(b, s, inputs);
    hide Sized, Initial, RunAll, ReleasesVouched, Leveled;
  }

  // A CPLD capsule is promoted only after a timed boot of every component
  lemma PromotedOnlyAfterTimedBoot(b: Board, s: State, inputs: seq<(Input, Pins)>, i: Input, e: Pins)
    requires Sized(b, s) && Initial(s)
    requires var t := RunAll(b, s, inputs);
             multiset(Step(b, t, i, e).log)[CpldPromoted] != multiset(t.log)[CpldPromoted]
    ensures var t := RunAll(b, s, inputs);
            i.PollPostUpdate? && t.provisioned && t.booted == {BmcPart, Me, Acm, Ibb, Obb} && t.cpldPending
  {
    InitialSafe(b, s);
    RunKeeps(b, s, inputs);
    StepKeeps(b, RunAll(b, s, inputs), i, e);
    hide Sized, Initial, RunAll, Step, Safe;
  }

  // Nothing outside erases the provisioned data during a run
  ghost predicate NothingErased(b: Board, s: State, inputs: seq<(Input, Pins)>)
    requires Sized(b, s)
    decreases |inputs|
  {
    inputs == [] || (OnlyClears(s, inputs[0].0) && NothingErased(b, Step(b, s, inputs[0].0, inputs[0].1), inputs[1..]))
  }

  lemma {:induction false} RunKeepsData(b: Board, s: State, inputs: seq<(Input, Pins)>)
    requires Sized(b, s) && Safe(b, s) && NothingErased(b, s, inputs)
    ensures DataKept(s, RunAll(b, s, inputs))
    decreases |inputs|
  {
    hide Sized, Safe, Step, DataKept, OnlyClears, Count;
    if inputs == [] {
      SameData(s, s);
    } else {
      var t := Step(b, s, inputs[0].0, inputs[0].1);
      StepKeeps(b, s, inputs[0].0, inputs[0].1);
      RunKeepsData(b, t, inputs[1..]);
      DataKeptTwice(s, t, RunAll(b, s, inputs));
    }
  }

  // The minimum SVNs and the cancelled keys survive every run, power cycles and lost power included: unless
  // the provisioned data is erased from outside or the platform is decommissioned, no minimum SVN goes down
  // and no cancelled key comes back
  lemma FloorsAndCancellationsLast(b: Board, s: State, before: seq<(Input, Pins)>, inputs: seq<(Input, Pins)>, p: SvnPolicy,
                                   pcType: nat, id: nat)
    requires Sized(b, s) && Initial(s) && NothingErased(b, RunAll(b, s, before), inputs)
    requires var t := RunAll(b, s, before);
             multiset(RunAll(b, t, inputs).log)[Decommissioned] == multiset(t.log)[Decommissioned]
    ensures var t := RunAll(b, s, before); var r := RunAll(b, t, inputs);
            && IsPage(t.page) && IsPage(r.page)
            && UfmSvn(r.page, p) >= UfmSvn(t.page, p) && (KeyValid(r.page, pcType, id) ==> KeyValid(t.page, pcType, id))
  {
    InitialSafe(b, s);
    RunKeeps(b, s, before);
    var t := RunAll(b, s, before);
    RunKeepsData(b, t, inputs);
    var r := RunAll(b, t, inputs);
    PagesStay(b, t);
    PagesStay(b, r);
    hide Sized, Initial, RunAll, Safe, UfmSvn, KeyValid, OnlyCleared, IsPage, NothingErased;
    ClearedKeepsSvn(t.page, r.page, p);
    ClearedKeepsCancelled(t.page, r.page, pcType, id);
  }

  lemma PagesStay(b: Board, s: State)
    requires Sized(b, s)
    ensures IsPage(s.page)
  {
  }

  // ---------------------------------------------------------------- watchdog recovery, word by word

  // A watchdog recovery of a flash is due and can be carried out, with this recovery capsule and these
  // definitions in the active manifest
  ghost predicate RecoveryDue(b: Board, s: State, dev: Dev, c: seq<Word>, es: seq<Entry>) {
    var side, cfg := Of(s, dev), b.Map(dev);
    && side.flags.requireWdt && IsPage(s.page) && ValidAt(b.d, s.page, side.mem, cfg.Recovery())
    && CanRecoverAtLevel(cfg, side.mem, side.level) && HoldsPayload(side.mem, cfg.Recovery()) && HasBody(side.mem, cfg.Active())
    && c == PayloadAt(side.mem, cfg.Recovery()) && es == Definitions(side.mem, cfg.Active())
  }

  // The k-th watchdog recovery since the level was reset rebuilds exactly the dynamic regions whose k-th
  // recovery bit is set, and the static ones if any of them is marked at all
  lemma KthRecovery(b: Board, s: State, dev: Dev, c: seq<Word>, es: seq<Entry>, i: nat)
    requires Sized(b, s) && Leveled(Of(s, dev)) && i < |Of(s, dev).mem| && RecoveryDue(b, s, dev, c, es)
    requires HasHeader(c) && HoldsManifest(c) && HoldsBody(c) && |SignedPfm(c)| <= 16384
    requires CompWithinActive(LayoutOf(c), Chosen(es, ByLevel(Of(s, dev).level)))
    requires AnyStaticMarked(es) ==> CompWithinActive(LayoutOf(c), CapsuleRegions(c, StaticOnly, b.Map(dev).stagingAddr))
    ensures var side, next, cfg, k, page := Of(s, dev), Of(WdtRecovery(b, s, dev), dev), b.Map(dev), LayoutOf(c), i / 1024;
            && |next.mem| == |side.mem| && side.recoveries < 3 && next.recoveries == side.recoveries + 1 && !next.flags.requireWdt
            && var bit: bv8 := [4, 8, 16][side.recoveries];
            var dynamic := if MarkedFor(es, bit, page) && Active(k, page) then Described(k, page, i % 1024) else side.mem[i];
            next.mem[i] == if AnyStaticMarked(es) then RebuiltBy(c, Parse(c[520..]), true, false, cfg.stagingAddr, cfg.pfm, i, dynamic)
                           else dynamic
  {
    hide *;
    var side, cfg := Of(s, dev), b.Map(dev);
    LevelOf(b, s, dev, c, es);
    LevelBit(side.recoveries);
    RecoveredNow(b, s, dev, c, es);
    WdtRecoveredByManifest(c, es, side.level, cfg.stagingAddr, cfg.pfm, side.mem, i);
  }

  lemma LevelBit(n: nat)
    requires n < 3
    ensures LevelMask(n) == [4, 8, 16][n]
  {
  }

  lemma LevelOf(b: Board, s: State, dev: Dev, c: seq<Word>, es: seq<Entry>)
    requires Leveled(Of(s, dev)) && RecoveryDue(b, s, dev, c, es)
    ensures Of(s, dev).recoveries < 3 && Of(s, dev).level == LevelMask(Of(s, dev).recoveries)
  {
    hide ValidAt, CanRecoverAtLevel, HoldsPayload, HasBody, PayloadAt, Definitions, LevelMask;
  }

  lemma RecoveredNow(b: Board, s: State, dev: Dev, c: seq<Word>, es: seq<Entry>)
    requires Sized(b, s) && RecoveryDue(b, s, dev, c, es)
    ensures Readable(c)
    ensures var side, next, cfg := Of(s, dev), Of(WdtRecovery(b, s, dev), dev), b.Map(dev);
            && next.recoveries == side.recoveries + 1 && !next.flags.requireWdt
            && next.mem == WdtRecovered(c, es, side.level, cfg.stagingAddr, cfg.pfm, side.mem)
  {
    var side, cfg := Of(s, dev), b.Map(dev);
    assert Readable(c) by { hide ValidAt, HoldsPayload, PayloadAt, Readable, HasBody, Definitions, Sized; }
    hide ValidAt, HoldsPayload, PayloadAt, Readable, HasBody, Definitions, WdtRecovered, CanRecoverAtLevel, Sized;
  }

  // ---------------------------------------------------------------- requested recoveries

  predicate SameLevel(side: Side, next: Side) {
    next.level == side.level && next.recoveries == side.recoveries && next.flags.requireWdt == side.flags.requireWdt
  }

  lemma ActiveUpdateKeepsLevel(b: Board, s: State, dev: Dev, i: Intent)
    requires Sized(b, s)
    ensures SameLevel(Of(s, dev), Of(ActiveUpdate(b, s, dev, i), dev))
  {
    hide Sized, UpdatedImage, Timers, CanUpdate;
  }

  lemma ExaminationKeepsLevel(b: Board, s: State, dev: Dev, v: Verdict)
    requires Sized(b, s) && (v.CancelsKey? ==> v.id <= 127)
    ensures SameLevel(Of(s, dev), Of(Examined(b, s, dev, v), dev))
  {
    hide Sized, PageAfter;
  }

  lemma UpdateKeepsLevel(b: Board, s: State, dev: Dev, i: Intent)
    requires Sized(b, s)
    ensures SameLevel(Of(s, dev), Of(FirmwareUpdate(b, s, dev, i), dev))
  {
    StagingFits(b, s, dev);
    hide Sized, Examine, ActiveUpdate, Examined, SameLevel;
    ActiveUpdateKeepsLevel(b, s, dev, i);
    ExaminationKeepsLevel(b, s, dev, Examine(b, s, dev, b.Map(dev).Staging(), if dev == Bmc then i.OnlyBmcFw() else i.OnlyPchFw()));
  }

  lemma CpldBitsKeepLevel(b: Board, s: State, i: Intent)
    requires Sized(b, s)
    ensures SameLevel(s.bmc, ActOnCpldIntent(b, s, i).bmc)
  {
    StagingFits(b, s, Bmc);
    NotingKeepsSize(b, s, CpldExamined);
    hide Sized, Examine, PageAfter;
  }

  lemma IntentsKeepLevel(b: Board, s: State, dev: Dev)
    requires Sized(b, s)
    ensures SameLevel(Of(s, dev), Of(ActOn(b, s, dev), dev))
  {
    ClearingIntent(b, s, dev);
    var t := Put(s, dev, Of(s, dev).(intent := NONE));
    var i := Of(s, dev).intent;
    hide Sized, FirmwareUpdate, ActOnCpldIntent, Works;
    if dev == Bmc {
      assert t == s.(bmc := s.bmc.(intent := NONE));
      UpdateKeepsLevel(b, t, Bmc, i);
      CpldBitsKeepLevel(b, if i.BmcFw() then FirmwareUpdate(b, t, Bmc, i) else t, i);
    } else {
      assert t == s.(pch := s.pch.(intent := NONE));
      UpdateKeepsLevel(b, t, Pch, i);
    }
  }

  lemma AuthenticationKeepsLevel(b: Board, s: State, dev: Dev, force: bool)
    requires Sized(b, s)
    ensures SameLevel(Of(s, dev), Of(Authenticated(b, s, dev, force), dev))
  {
    hide Sized, Authenticate, PfmSvn, Workable;
  }

  // What perform_wdt_recovery does to the level
  ghost predicate RecoversOnce(side: Side, next: Side, done: bool) {
    && next.recoveries == side.recoveries + (if done then 1 else 0)
    && next.level == (if done then side.level << 1 else side.level)
    && next.flags.requireWdt == (side.flags.requireWdt && !done)
  }

  lemma RecoversAsRequested(side: Side, mem: Mem)
    ensures side.flags.requireWdt ==> RecoversOnce(side, Recovered(side, mem), true)
    ensures RecoversOnce(side, side, false)
  {
  }

  // The recovery capsule of a flash is authentic and can be used at the current level
  predicate CanServe(b: Board, s: State, dev: Dev)
    requires IsPage(s.page)
  {
    var side, cfg := Of(s, dev), b.Map(dev);
    ValidAt(b.d, s.page, side.mem, cfg.Recovery()) && CanRecoverAtLevel(cfg, side.mem, side.level)
  }

  lemma RecoversFirst(b: Board, s: State, dev: Dev)
    requires Sized(b, s) && IsPage(s.page)
    ensures RecoversOnce(Of(s, dev), Of(BeforeIntents(b, s, dev), dev), Of(s, dev).flags.requireWdt && CanServe(b, s, dev))
  {
    hide Sized, ValidAt, WdtImage, Recovered, RecoversOnce, CanRecoverAtLevel;
    RecoversAsRequested(Of(s, dev), Of(s, dev).mem);
    if Of(s, dev).flags.requireWdt && CanServe(b, s, dev) {
      RecoversAsRequested(Of(s, dev), WdtImage(b.Map(dev), Of(s, dev).mem, Of(s, dev).level));
    }
  }

  lemma ThenSameLevel(side: Side, t: Side, r: Side, done: bool)
    requires RecoversOnce(side, t, done) && SameLevel(t, r)
    ensures RecoversOnce(side, r, done)
  {
  }

  // The T-1 work on a flash carries out a requested recovery exactly when the recovery capsule
  // authenticates and can be used; otherwise the request stays
  lemma RequestedRecoveryIsCarriedOut(b: Board, s: State, dev: Dev, force: bool)
    requires Sized(b, s) && IsPage(s.page)
    ensures RecoversOnce(Of(s, dev), Of(OperateOn(b, s, dev, force), dev), Of(s, dev).flags.requireWdt && CanServe(b, s, dev))
  {
    OperateOnIs(b, s, dev, force);
    RecoversFirst(b, s, dev);
    BeforeAuthenticationIs(b, s, dev);
    hide *;
    var t, a := BeforeIntents(b, s, dev), BeforeAuthentication(b, s, dev);
    var done := Of(s, dev).flags.requireWdt && CanServe(b, s, dev);
    if t.mode == Running {
      IntentsKeepLevel(b, t, dev);
      ThenSameLevel(Of(s, dev), Of(t, dev), Of(a, dev), done);
    }
    AuthenticationKeepsLevel(b, a, dev, force);
    if a.mode == Running {
      ThenSameLevel(Of(s, dev), Of(a, dev), Of(Authenticated(b, a, dev, force), dev), done);
    }
  }

  lemma BeforeAuthenticationIs(b: Board, s: State, dev: Dev)
    requires Sized(b, s)
    ensures var t := BeforeIntents(b, s, dev);
            BeforeAuthentication(b, s, dev) == if t.mode == Running then ActOn(b, t, dev) else t
  {
    hide ActOn, BeforeIntents, Sized;
  }

  // ---------------------------------------------------------------- deferred CPLD intents

  // The BMC intent asks for a CPLD update and is not deferred to the next platform reset
  predicate AsksForCpld(s: State) { s.provisioned && s.mode == Running && s.bmc.intent.Cpld() && !s.bmc.intent.atReset }

  // T0 lets the CPLD bits of the BMC intent through to T-1
  predicate LetsCpldThrough(s: State) {
    s.bmc.attempts < 3 && !(s.bmc.flags.recoveryFailed && s.bmc.intent.BmcFw()) && !(s.pch.flags.recoveryFailed && s.bmc.intent.pchActive)
  }

  lemma BmcIntentCases(b: Board, s: State, e: Pins)
    requires Sized(b, s) && AsksForCpld(s)
    ensures LetsCpldThrough(s) ==> BmcIntent(b, s, e) == PlatformReset(b, s, e)
    ensures !LetsCpldThrough(s) ==>
              || BmcIntent(b, s, e) == Taken(s, Bmc, false)
              || BmcIntent(b, s, e) == Taken(Taken(s, Bmc, true), Bmc, false)
              || (Sized(b, Taken(s, Bmc, true)) && BmcIntent(b, s, e) == PlatformReset(b, Taken(s, Bmc, true), e))
  {
    TakenFits(b, s, true);
    hide PlatformReset, BmcOnlyReset, Taken, Sized;
  }

  lemma TakenFits(b: Board, s: State, pending: bool)
    requires Sized(b, s)
    ensures Sized(b, Taken(s, Bmc, pending))
  {
  }

  lemma TakenClears(s: State, pending: bool)
    ensures var t := Taken(s, Bmc, pending);
            t.bmc.intent == NONE && t.log == s.log && t.mode == s.mode && t.provisioned == s.provisioned
  {
  }

  // The CPLD bits of a BMC intent are acted upon, or put back on their own, exactly when T0 lets them
  // through, unless the firmware goes astray; otherwise they are lost
  lemma CpldIntentKeptIff(b: Board, s: State, e: Pins)
    requires Sized(b, s) && Safe(b, s) && AsksForCpld(s) && e.pitPasses
    ensures var r := BmcIntent(b, s, e);
            var examined, kept := Count(r.log, CpldExamined) == Count(s.log, CpldExamined) + 1, r.bmc.intent == s.bmc.intent.OnlyCpld();
            && (r.mode != Astray ==> (LetsCpldThrough(s) <==> examined || kept))
            && (!LetsCpldThrough(s) ==> !examined && (r.mode != Astray ==> r.bmc.intent == NONE))
  {
    BmcIntentCases(b, s, e);
    hide Sized, PlatformReset, BmcIntent, Safe, Count, Taken, LetsCpldThrough;
    SafeFacts(b, s);
    TakenKeeps(b, s, Bmc, true);
    TakenClears(s, false);
    TakenClears(s, true);
    TakenClears(Taken(s, Bmc, true), false);
    if LetsCpldThrough(s) {
      var n := ProvisionedReset(b, s, e);
    } else {
      SafeFacts(b, Taken(s, Bmc, true));
      var n := ProvisionedReset(b, Taken(s, Bmc, true), e);
    }
  }

  // With an invalid recovery image, an intent for a BMC recovery update and a CPLD update loses the latter
  lemma CpldIntentCanBeLost(b: Board, s: State, e: Pins)
    requires Sized(b, s) && Safe(b, s) && s.provisioned && s.mode == Running && e.pitPasses && s.bmc.flags.recoveryFailed
    requires s.bmc.intent == NONE.(cpldActive := true, bmcRecovery := true)
    ensures var r := BmcIntent(b, s, e);
            && Count(r.log, CpldExamined) != Count(s.log, CpldExamined) + 1 && (r.mode != Astray ==> r.bmc.intent == NONE)
  {
    assert AsksForCpld(s) && !LetsCpldThrough(s);
    hide *;
    CpldIntentKeptIff(b, s, e);
  }

  // Deferred CPLD intents are not lost: when a platform reset puts the CPLD bits back because a firmware
  // update had to come first, the next turn of the T0 loop that reads the intent examines the CPLD
  // capsule, if no new intent has arrived and unless there were too many failed attempts
  lemma DeferredCpldIntentIsHandled(b: Board, s: State, e: Pins, f: Pins)
    requires Sized(b, s) && Safe(b, s) && AsksForCpld(s) && f.pitPasses
    requires var r := PlatformReset(b, s, e); r.mode == Running && Count(r.log, CpldExamined) == Count(s.log, CpldExamined)
    ensures var r := PlatformReset(b, s, e);
            && r.bmc.intent == s.bmc.intent.OnlyCpld() && r.pch.intent == NONE
            && (BmcIntent(b, r, f).mode != Astray ==>
                  (Count(BmcIntent(b, r, f).log, CpldExamined) == Count(r.log, CpldExamined) + 1 <==> r.bmc.attempts < 3))
  {
    hide *;
    SafeFacts(b, s);
    AskingFacts(s);
    var n := ProvisionedReset(b, s, e);
    var r := PlatformReset(b, s, e);
    OnlyCpldBits(s, r, n);
    NextIntentRead(b, r, f);
  }

  lemma AskingFacts(s: State)
    requires AsksForCpld(s)
    ensures s.provisioned && s.mode == Running
  {
  }

  lemma NextIntentRead(b: Board, s: State, f: Pins)
    requires Sized(b, s) && Safe(b, s) && AsksForCpld(s) && f.pitPasses && (LetsCpldThrough(s) <==> s.bmc.attempts < 3)
    requires !s.bmc.intent.BmcFw() && !s.bmc.intent.PchFw() && !s.pch.intent.PchFw()
    ensures BmcIntent(b, s, f).mode != Astray ==>
              (Count(BmcIntent(b, s, f).log, CpldExamined) == Count(s.log, CpldExamined) + 1 <==> s.bmc.attempts < 3)
  {
    CpldIntentKeptIff(b, s, f);
    if LetsCpldThrough(s) {
      BmcIntentCases(b, s, f);
      hide *;
      SafeFacts(b, s);
      AskingFacts(s);
      var m := ProvisionedReset(b, s, f);
      if PlatformReset(b, s, f).mode != Astray {
        ExaminedNow(s, PlatformReset(b, s, f), m);
      }
    } else {
      hide *;
    }
  }

  // What a platform reset that examines no CPLD capsule leaves
  lemma OnlyCpldBits(s: State, r: State, n: nat)
    requires AsksForCpld(s) && r.mode == Running && ResetSettles(s, r, n) && Count(r.log, CpldExamined) == Count(s.log, CpldExamined)
    ensures r.bmc.intent == s.bmc.intent.OnlyCpld() && r.pch.intent == NONE && AsksForCpld(r)
    ensures !r.bmc.intent.BmcFw() && !r.bmc.intent.PchFw() && !r.pch.intent.PchFw()
    ensures LetsCpldThrough(r) <==> r.bmc.attempts < 3
  {
    hide Count;
  }

  lemma ExaminedNow(s: State, r: State, n: nat)
    requires AsksForCpld(s) && !s.bmc.intent.BmcFw() && !s.bmc.intent.PchFw() && !s.pch.intent.PchFw() && ResetSettles(s, r, n)
    requires r.mode != Astray
    ensures Count(r.log, CpldExamined) == Count(s.log, CpldExamined) + 1
  {
    hide Count;
  }
}
