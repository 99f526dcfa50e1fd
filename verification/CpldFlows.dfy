/**
 The CPLD update as the firmware carries it out on both flashes, step by step: each method leaves
 what its plan in CpldUpdate says.
 */
module CpldFlows {
  import opened NorFlash
  import opened Sequences
  import opened SpiRwUtils
  import opened Ufm
  import opened Authentication
  import opened PowerLoss
  import opened CpldSteps
  import opened CpldUpdate
  import opened CpldPromotion

  // Both flashes as one store
  ghost function Both(f: SpiFlash, c: OnChipFlash): Store
    reads f, f.mem, c, c.page, c.cfm1
  {
    Store(f.mem[..], c.page[..], c.status, c.cfm1[..])
  }

  ghost predicate Apart(f: SpiFlash, c: OnChipFlash)
    reads c, c.page, c.cfm1, f, f.mem
  {
    f.Valid() && c.Valid() && f.mem != c.page && f.mem != c.cfm1 && c.cfm1.Length >= 2 && 0 < c.top && c.page.Length == 59
  }

  // Steps that do not touch the BMC flash do not depend on it
  lemma {:induction false} StepsElsewhere(s: Store, t: seq<Step>, m: Mem, top: nat)
    requires forall e | e in t :: !e.Bmc?
    ensures Steps(s.(bmc := m), t, top) == Steps(s, t, top).(bmc := m)
    decreases |t|
  {
    if t != [] {
      StepsElsewhere(ApplyStep(s, t[0], top), t[1..], m, top);
    }
  }

  method CopyWord(f: SpiFlash, c: OnChipFlash, at: nat, i: nat, ghost img: Mem)
    requires c.Valid() && |img| == c.cfm1.Length && WordsAt(f.mem[..], at, img) && i < |img|
    modifies c`log, c.cfm1
    ensures c.Valid() && c.log == old(c.log) + [Cfm(i, img[i])]
  {
    assert at + i < f.mem.Length && f.mem[at + i] == f.mem[..][at..at + |img|][i];
    c.StoreCfm(i, f.mem[at + i]);
    hide *;
  }

  lemma BackwardLog(log: seq<Step>, img: Mem, i: nat)
    requires i < |img|
    ensures log + Backward(img, i) == (log + [Cfm(i, img[i])]) + if i == 0 then [] else Backward(img, i - 1)
  {
    MoveHead(log, Backward(img, i));
  }

  // The loop of the update: the highest word first, the first word of the image last
  method WriteBackwards(f: SpiFlash, c: OnChipFlash, at: nat, ghost img: Mem)
    requires c.Valid() && |img| == c.cfm1.Length >= 2 && WordsAt(f.mem[..], at, img) && f.mem != c.cfm1
    modifies c`log, c.cfm1
    ensures c.Valid() && c.log == old(c.log) + Backward(img, |img| - 1)
  {
    hide *;
    ghost var all := Backward(img, c.cfm1.Length - 1);
    var i: nat := c.cfm1.Length - 1;
    while i > 0
      invariant i < c.cfm1.Length && c.Valid() && c.log + Backward(img, i) == old(c.log) + all
    {
      BackwardLog(c.log, img, i);
      CopyWord(f, c, at, i, img);
      i := i - 1;
    }
    BackwardLog(c.log, img, 0);
    CopyWord(f, c, at, 0, img);
  }

  method EraseActive(c: OnChipFlash)
    requires c.Valid()
    modifies c, c.cfm1
    ensures c.Valid() && c.status == old(c.status) && c.log == old(c.log) + [EraseTop, EraseBottom]
  {
    ghost var was := c.log;
    c.EraseSector(3);
    assert c.status == old(c.status) by { OneStep(old(c.Now()), EraseTop, c.top); }
    ghost var mid := c.Now();
    c.EraseSector(4);
    assert c.status == old(c.status) by { OneStep(mid, EraseBottom, c.top); }
    hide *;
    assert was + [EraseTop] + [EraseBottom] == was + [EraseTop, EraseBottom];
  }

  method RewriteActive(f: SpiFlash, c: OnChipFlash, at: nat, ghost img: Mem)
    requires Apart(f, c) && |img| == c.cfm1.Length && WordsAt(f.mem[..], at, img)
    modifies c, c.cfm1
    ensures c.Valid() && img != [] && c.log == old(c.log) + RewriteCfm1(img)
    ensures Both(f, c) == Steps(old(Both(f, c)), RewriteCfm1(img), c.top)
  {
    ghost var before, was, s := c.Now(), c.log, Both(f, c);
    AsStore(f, c);
    hide *;
    EraseActive(c);
    WriteBackwards(f, c, at, img);
    RewriteIs(img);
    Associative(was, [EraseTop, EraseBottom], Backward(img, |img| - 1));
    Caught(f, c, s, before, was, RewriteCfm1(img));
  }

  lemma AsStore(f: SpiFlash, c: OnChipFlash)
    requires Apart(f, c)
    ensures f.Valid() && c.Valid() && f.mem != c.page && f.mem != c.cfm1 && c.cfm1.Length >= 2 && 0 < c.top && c.page.Length == 59
    ensures Both(f, c) == c.Now().(bmc := f.mem[..]) && c.Now() == Steps(c.origin, c.log, c.top)
  {
    hide Steps;
  }

  // What the on-chip flash did since, seen on both flashes
  lemma Caught(f: SpiFlash, c: OnChipFlash, s: Store, before: Store, was: seq<Step>, t: seq<Step>)
    requires c.Valid() && c.log == was + t && before == Steps(c.origin, was, c.top)
    requires s == before.(bmc := f.mem[..])
    ensures Both(f, c) == Steps(s, t, c.top)
  {
    StepsConcat(c.origin, was, t, c.top);
    assert forall e | e in t :: e in c.log;
    StepsElsewhere(before, t, f.mem[..], c.top);
    hide Steps;
  }

  // The words of an on-chip flash as the parts of a laid-out device
  ghost predicate Ready(f: SpiFlash, c: OnChipFlash, d: Device, staged: nat)
    reads f, f.mem, c, c.page, c.cfm1
  {
    Apart(f, c) && LaidOut(Both(f, c), d, staged, c.top) && 288 + d.cpldImageWords <= AREA
  }

  lemma ReadyParts(f: SpiFlash, c: OnChipFlash, d: Device, staged: nat)
    requires Ready(f, c, d, staged)
    ensures Apart(f, c) && f.Valid() && c.Valid() && c.page.Length == 59 && f.mem != c.page && f.mem != c.cfm1
    ensures c.cfm1.Length == d.cpldImageWords >= 2 && 288 + d.cpldImageWords <= AREA
    ensures f.mem.Length >= RECOVERY + AREA && staged + AREA <= RECOVERY
    ensures LaidOut(Both(f, c), d, staged, c.top) && Both(f, c) == Store(f.mem[..], c.page[..], c.status, c.cfm1[..])
  {
    hide Steps;
  }

  // perform_update_post_reconfig; afterwards the device switches to CFM1 in every case
  method PerformUpdatePostReconfig(f: SpiFlash, c: OnChipFlash, d: Device, staged: nat)
    requires Ready(f, c, d, staged)
    modifies c, c.cfm1
    ensures c.Valid() && LaidOut(old(Both(f, c)), d, staged, c.top)
    ensures c.log == old(c.log) + PostReconfig(d, old(Both(f, c)), staged, c.top)
    ensures Both(f, c) == Steps(old(Both(f, c)), PostReconfig(d, old(Both(f, c)), staged, c.top), c.top)
  {
    ghost var s := Both(f, c);
    ReadyParts(f, c, d, staged);
    PostReconfigIs(d, s, staged, c.top);
    hide *;
    NoSteps(s, [], c.top);
    var go := ShouldUpdate(f, c, d, staged);
    if go {
      BitstreamInFlash(f.mem[..], staged, c.cfm1.Length);
      RewriteActive(f, c, staged + 257, Bitstream(f.mem[..], staged, c.cfm1.Length));
    }
  }

  method ShouldUpdate(f: SpiFlash, c: OnChipFlash, d: Device, staged: nat) returns (go: bool)
    requires c.page.Length == 59 && staged + AREA <= f.mem.Length
    ensures IsPage(c.page[..])
    ensures go == (Svn(f.mem[..], staged) >= UfmSvn(c.page[..], CpldPolicy) && ValidAt(d, c.page[..], f.mem[..], staged))
  {
    hide UfmSvn, ValidAt, Svn;
    var svn := ReadSvn(f, staged);
    var least := GetUfmSvn(c.page, CpldPolicy);
    if svn < least {
      return false;
    }
    go := IsSignatureValidAt(f, d, c.page[..], staged);
  }

  lemma BitstreamInFlash(m: Mem, at: nat, n: nat)
    requires at + 257 + n <= |m|
    ensures WordsAt(m, at + 257, Bitstream(m, at, n))
  {
  }

  lemma PostReconfigIs(d: Device, s: Store, staged: nat, top: nat)
    requires LaidOut(s, d, staged, top) && 288 + d.cpldImageWords <= AREA
    ensures IsPage(s.page) && staged + AREA <= |s.bmc| && Bitstream(s.bmc, staged, d.cpldImageWords) != []
    ensures PostReconfig(d, s, staged, top)
         == if Svn(s.bmc, staged) < UfmSvn(s.page, CpldPolicy) || !ValidAt(d, s.page, s.bmc, staged) then []
            else RewriteCfm1(Bitstream(s.bmc, staged, d.cpldImageWords))
  {
    hide UfmSvn, ValidAt, RewriteCfm1;
  }

  method ReadSvn(f: SpiFlash, at: nat) returns (svn: nat)
    requires at + 256 < f.mem.Length
    ensures svn == Svn(f.mem[..], at)
  {
    svn := f.mem[at + 256] as nat;
  }

  // Erasing the status sector, seen on both flashes
  method EraseStatusSector(f: SpiFlash, c: OnChipFlash)
    requires Apart(f, c)
    modifies c, c.cfm1
    ensures c.Valid() && c.log == old(c.log) + [EraseStatus] && Both(f, c) == old(Both(f, c)).(status := ERASED)
  {
    ghost var before, was, s := c.Now(), c.log, Both(f, c);
    AsStore(f, c);
    c.EraseSector(2);
    hide *;
    Caught(f, c, s, before, was, [EraseStatus]);
    EraseStatusStep(s, c.top);
    StatusErasedIs(s);
  }

  // Erases the recovery area and copies the staged payload there
  method RestoreFromStaged(f: SpiFlash, staged: nat)
    requires f.Valid() && f.mem.Length >= RECOVERY + AREA && staged + AREA <= RECOVERY
    requires HoldsPayload(f.mem[..], staged) && |PayloadAt(f.mem[..], staged)| <= AREA
    requires SignedPayloadSize(f.mem[..], staged) == 4 * |PayloadAt(f.mem[..], staged)|
    modifies f, f.mem
    ensures f.Valid() && f.log == old(f.log) + RestoreTrace(old(f.mem[..]), staged)
    ensures f.mem[..] == Restored(old(f.mem[..]), staged)
  {
    ghost var m, log := f.mem[..], f.log;
    Holds(f);
    RestoreTraceIs(m, staged);
    RestoredRun(m, staged);
    hide *;
    EraseSpiRegion(f, 0x7F0_0000, 0x10_0000, RECOVERY_PAGE);
    AfterErase(m, f.mem[..], staged);
    CopyStaged(f, staged, SignedPayloadSize(m, staged), PayloadAt(m, staged));
    Associative(log, EraseTrace(RECOVERY_PAGE, 0x10_0000),
                MemcpyTrace(RECOVERY_PAGE, SignedPayloadSize(m, staged), PayloadAt(m, staged)));
    Replayed(f, m, log, RestoreTrace(m, staged));
  }

  method CopyStaged(f: SpiFlash, staged: nat, ghost n: nat, ghost data: seq<Word>)
    requires f.Valid() && staged + 1 < f.mem.Length && SignedPayloadSize(f.mem[..], staged) == n
    requires MemcpyFits(f.mem.Length, RECOVERY_PAGE, staged, n)
    requires staged + n / 4 <= f.mem.Length && f.mem[..][staged..staged + n / 4] == data
    modifies f, f.mem
    ensures f.Valid() && f.log == old(f.log) + MemcpyTrace(RECOVERY_PAGE, n, data)
  {
    assert RECOVERY_PAGE == 32512;
    hide *;
    MemcpySignedPayload(f, 0x7F0_0000, staged, RECOVERY_PAGE);
  }

  lemma RestoreTraceIs(m: Mem, staged: nat)
    requires HoldsPayload(m, staged)
    ensures RestoreTrace(m, staged)
         == EraseTrace(RECOVERY_PAGE, 0x10_0000) + MemcpyTrace(RECOVERY_PAGE, SignedPayloadSize(m, staged), PayloadAt(m, staged))
  {
  }

  // The staged payload is still there after the recovery area is erased, and the copy fits
  lemma AfterErase(m: Mem, r: Mem, staged: nat)
    requires HoldsPayload(m, staged) && |m| >= RECOVERY + AREA && staged + AREA <= RECOVERY
    requires |PayloadAt(m, staged)| <= AREA && SignedPayloadSize(m, staged) == 4 * |PayloadAt(m, staged)|
    requires r == ErasePages(m, RECOVERY_PAGE, RECOVERY_PAGE + PagesUpTo(0x10_0000))
    ensures staged + 1 < |r| && SignedPayloadSize(r, staged) == SignedPayloadSize(m, staged)
    ensures var n := SignedPayloadSize(m, staged);
            MemcpyFits(|r|, RECOVERY_PAGE, staged, n) && staged + n / 4 <= |r| && r[staged..staged + n / 4] == PayloadAt(m, staged)
  {
    var n, data := SignedPayloadSize(m, staged), PayloadAt(m, staged);
    PayloadInPlace(m, staged);
    BelowErased(m, staged, data);
    StillThere(m, staged, r);
    AtItsPlace(r, staged);
    PagesOfArea(n);
    hide ErasePages, WordsAt, PayloadAt, HoldsPayload, SignedPayloadSize, PagesUpTo;
  }

  lemma StillThere(m: Mem, at: nat, other: Mem)
    requires HoldsPayload(m, at) && WordsAt(other, at, PayloadAt(m, at))
    ensures HoldsPayload(other, at) && PayloadAt(other, at) == PayloadAt(m, at)
    ensures SignedPayloadSize(other, at) == SignedPayloadSize(m, at)
  {
    AtItsPlace(m, at);
    SamePayload(m, at, other, at);
    PayloadLength(m, at);
    PayloadLength(other, at);
    hide SignedPayloadSize, PayloadAt, HoldsPayload, PcLength;
  }

  // A payload that the recovery capsule is restored from stays inside its 1MB. The code does not look, but
  // every payload of CPLD type does.
  predicate StagedFits(d: Device, s: Store, staged: nat)
    requires IsPage(s.page)
  {
    !ValidAt(d, s.page, s.bmc, RECOVERY) && ValidAt(d, s.page, s.bmc, staged) ==>
      |PayloadAt(s.bmc, staged)| <= AREA && SignedPayloadSize(s.bmc, staged) == 4 * |PayloadAt(s.bmc, staged)|
  }

  lemma CpldTypeFits(d: Device, s: Store, staged: nat)
    requires IsPage(s.page) && RightType(d, s, staged) && staged + AREA <= |s.bmc| && 288 + d.cpldImageWords <= AREA
    ensures StagedFits(d, s, staged)
  {
    TypeAt(s.bmc, staged);
    CapsuleWords(d, s, staged);
    hide SignatureValid, PayloadAt, SignedPayloadSize, CpldType, IsCpldCapsule;
  }

  lemma RecoveryPlanIs(d: Device, s: Store, staged: nat, top: nat)
    requires LaidOut(s, d, staged, top) && 288 + d.cpldImageWords <= AREA
    ensures IsPage(s.page) && |s.cfm1| == d.cpldImageWords && RECOVERY + AREA <= |s.bmc|
    ensures ValidAt(d, s.page, s.bmc, staged) ==> HoldsPayload(s.bmc, staged)
    ensures RecoveryPlan(d, s, staged, top)
         == if ValidAt(d, s.page, s.bmc, RECOVERY) then
              Recover([EraseStatus] + RewriteCfm1(Bitstream(s.bmc, RECOVERY, d.cpldImageWords)))
            else if ValidAt(d, s.page, s.bmc, staged) then
              Recover([EraseStatus] + OnBmc(RestoreTrace(s.bmc, staged))
                      + RewriteCfm1(Bitstream(Restored(s.bmc, staged), RECOVERY, d.cpldImageWords)))
            else WaitForBmc([EraseStatus])
  {
    hide SignatureValid, RewriteCfm1, RestoreTrace, Restored, Bitstream, SignedPayloadSize;
  }

  // What comes before the rewriting of CFM1
  function BeforeRewrite(d: Device, s: Store, staged: nat): seq<Step>
    requires IsPage(s.page)
  {
    if !ValidAt(d, s.page, s.bmc, RECOVERY) && ValidAt(d, s.page, s.bmc, staged) then
      [EraseStatus] + OnBmc(RestoreTrace(s.bmc, staged))
    else [EraseStatus]
  }

  lemma RecoveryInPhases(d: Device, s: Store, staged: nat, top: nat)
    requires LaidOut(s, d, staged, top) && 288 + d.cpldImageWords <= AREA
    ensures IsPage(s.page) && RECOVERY + AREA <= |s.bmc|
    ensures var r := Steps(s, BeforeRewrite(d, s, staged), top);
            RecoveryPlan(d, s, staged, top)
              == if ValidAt(d, s.page, s.bmc, RECOVERY) || ValidAt(d, s.page, s.bmc, staged) then
                   Recover(BeforeRewrite(d, s, staged) + RewriteCfm1(Bitstream(r.bmc, RECOVERY, d.cpldImageWords)))
                 else WaitForBmc(BeforeRewrite(d, s, staged))
  {
    RecoveryPlanIs(d, s, staged, top);
    EraseStatusStep(s, top);
    StatusErasedIs(s);
    if ValidAt(d, s.page, s.bmc, staged) {
      RestoreEnds(s, staged, top);
    }
    hide ValidAt, RecoveryPlan, RewriteCfm1, RestoreTrace, Restored, Bitstream, Steps, HoldsPayload;
  }

  // Authenticates the recovery capsule and, if it must and can, restores it from the staged one
  method FindCapsule(f: SpiFlash, c: OnChipFlash, d: Device, staged: nat) returns (found: bool)
    requires Apart(f, c) && f.mem.Length >= RECOVERY + AREA && staged + AREA <= RECOVERY
    requires IsPage(Both(f, c).page) && StagedFits(d, Both(f, c), staged)
    modifies f, f.mem, c, c.cfm1
    ensures Apart(f, c) && IsPage(old(Both(f, c)).page)
    ensures var s := old(Both(f, c));
            && found == (ValidAt(d, s.page, s.bmc, RECOVERY) || ValidAt(d, s.page, s.bmc, staged))
            && Both(f, c) == Steps(s, BeforeRewrite(d, s, staged), c.top)
  {
    ghost var s := Both(f, c);
    AsStore(f, c);
    StagedFitsIs(d, s, staged);
    BeforeRewriteIs(d, s, staged, c.top);
    hide *;
    BothIs(f, c);
    EraseStatusSector(f, c);
    BothIs(f, c);
    found := IsSignatureValidAt(f, d, c.page[..], RECOVERY);
    if !found {
      found := IsSignatureValidAt(f, d, c.page[..], staged);
      if found {
        RestoreFromStaged(f, staged);
        BothIs(f, c);
      }
    }
    StillApart(f, c);
  }

  lemma BeforeRewriteIs(d: Device, s: Store, staged: nat, top: nat)
    requires IsPage(s.page)
    ensures var r := Steps(s, BeforeRewrite(d, s, staged), top);
            if !ValidAt(d, s.page, s.bmc, RECOVERY) && ValidAt(d, s.page, s.bmc, staged) then
              HoldsPayload(s.bmc, staged) && r == s.(status := ERASED, bmc := Restored(s.bmc, staged))
            else r == s.(status := ERASED)
  {
    EraseStatusStep(s, top);
    StatusErasedIs(s);
    if ValidAt(d, s.page, s.bmc, staged) {
      RestoreEnds(s, staged, top);
    }
    hide SignatureValid, RestoreTrace, Restored, Steps, SignedPayloadSize;
  }

  // perform_cpld_recovery up to the switch to CFM1, or to booting the BMC
  method PerformCpldRecovery(f: SpiFlash, c: OnChipFlash, d: Device, staged: nat) returns (waits: bool)
    requires Ready(f, c, d, staged) && IsPage(Both(f, c).page) && StagedFits(d, Both(f, c), staged)
    modifies f, f.mem, c, c.cfm1
    ensures f.Valid() && c.Valid() && LaidOut(old(Both(f, c)), d, staged, c.top)
    ensures waits == RecoveryPlan(d, old(Both(f, c)), staged, c.top).WaitForBmc?
    ensures Both(f, c) == Steps(old(Both(f, c)), RecoveryPlan(d, old(Both(f, c)), staged, c.top).steps, c.top)
  {
    ghost var s := Both(f, c);
    ReadyParts(f, c, d, staged);
    RecoveryInPhases(d, s, staged, c.top);
    hide *;
    var found := FindCapsule(f, c, d, staged);
    waits := !found;
    if found {
      StepsConcat(s, BeforeRewrite(d, s, staged), RewriteCfm1(Bitstream(Both(f, c).bmc, RECOVERY, d.cpldImageWords)), c.top);
      RewriteFromRecovery(f, c);
    }
    AsValid(f, c);
  }

  lemma AsValid(f: SpiFlash, c: OnChipFlash)
    ensures Apart(f, c) ==> f.Valid() && c.Valid()
  {
    hide Steps;
  }

  // Rewrites CFM1 from the recovery capsule
  method RewriteFromRecovery(f: SpiFlash, c: OnChipFlash)
    requires Apart(f, c) && f.mem.Length >= RECOVERY + AREA && 288 + c.cfm1.Length <= AREA
    modifies c, c.cfm1
    ensures Apart(f, c) && c.cfm1.Length > 0 && f.mem.Length >= RECOVERY + AREA && |Both(f, c).bmc| == f.mem.Length
    ensures Bitstream(old(Both(f, c)).bmc, RECOVERY, c.cfm1.Length) != []
    ensures Both(f, c) == Steps(old(Both(f, c)), RewriteCfm1(Bitstream(old(Both(f, c)).bmc, RECOVERY, c.cfm1.Length)), c.top)
  {
    AsStore(f, c);
    hide *;
    BothIs(f, c);
    BitstreamInFlash(f.mem[..], RECOVERY, c.cfm1.Length);
    RewriteActive(f, c, RECOVERY + 257, Bitstream(f.mem[..], RECOVERY, c.cfm1.Length));
    StillApart(f, c);
    BothIs(f, c);
  }

  lemma BothIs(f: SpiFlash, c: OnChipFlash)
    ensures Both(f, c) == Store(f.mem[..], c.page[..], c.status, c.cfm1[..])
  {
  }

  lemma StillApart(f: SpiFlash, c: OnChipFlash)
    requires f.Valid() && c.Valid() && f.mem != c.page && f.mem != c.cfm1 && c.cfm1.Length >= 2 && 0 < c.top && c.page.Length == 59
    ensures Apart(f, c)
  {
    hide Steps;
  }

  lemma StagedFitsIs(d: Device, s: Store, staged: nat)
    requires IsPage(s.page) && StagedFits(d, s, staged)
    ensures 0 < |s.page| && (!ValidAt(d, s.page, s.bmc, RECOVERY) && ValidAt(d, s.page, s.bmc, staged) ==>
              HoldsPayload(s.bmc, staged) && |PayloadAt(s.bmc, staged)| <= AREA
              && SignedPayloadSize(s.bmc, staged) == 4 * |PayloadAt(s.bmc, staged)|)
  {
    hide SignatureValid, PayloadAt, SignedPayloadSize;
  }

  // ---------------------------------------------------------------- what the active image does

  // trigger_cpld_update up to the switch to CFM0
  method TriggerCpldUpdate(c: OnChipFlash, recovery: bool)
    requires c.Valid() && c.cfm1.Length >= 2
    modifies c, c.cfm1
    ensures c.Valid() && c.log == old(c.log) + Trigger(c.cfm1.Length, recovery)
  {
    ghost var was := c.log;
    if recovery {
      c.ClearStatusWord();
    }
    hide CpldSteps.Steps, CpldSteps.ApplyStep, Nor;
    c.StoreCfm(c.cfm1.Length - 1, 0);
    assert was + [ClearStatus] + [Cfm(c.cfm1.Length - 1, 0)] == was + ([ClearStatus] + [Cfm(c.cfm1.Length - 1, 0)]);
    assert [] + [Cfm(c.cfm1.Length - 1, 0)] == [Cfm(c.cfm1.Length - 1, 0)];
  }

  // write_ufm_svn of the CPLD policy
  method BumpSvn(c: OnChipFlash, svn: nat)
    requires c.Valid() && c.page.Length == 59
    modifies c`log, c.page
    ensures c.Valid() && IsPage(old(c.page[..])) && c.page[..] == SvnWritten(old(c.page[..]), CpldPolicy, svn)
    ensures c.log == old(c.log) + OnPage(SvnWrites(old(c.page[..]), CpldPolicy, svn))
  {
    ghost var u, s, was := c.page[..], c.Now(), c.log;
    ghost var w := SvnWrites(u, CpldPolicy, svn);
    WriteUfmSvn(c.page, svn, CpldPolicy);
    c.log := c.log + OnPage(w);
    BumpedLog(c.origin, was, s, w, c.top);
    assert c.page[..] == Run(u, w);
    hide SvnWritten, SvnWrites, Run, CpldSteps.Steps;
  }

  lemma BumpedLog(origin: Store, was: seq<Step>, s: Store, w: seq<Op>, top: nat)
    requires s == Steps(origin, was, top)
    ensures Steps(origin, was + OnPage(w), top) == s.(page := Run(s.page, w))
  {
    StepsConcat(origin, was, OnPage(w), top);
    PageSteps(s, w, top);
  }

  // The copy of the whole staging area over the recovery area
  method CopyStagingArea(f: SpiFlash, staged: nat)
    requires f.Valid() && f.mem.Length >= RECOVERY + AREA && staged + AREA <= RECOVERY
    modifies f, f.mem
    ensures f.Valid() && f.log == old(f.log) + PromoteTrace(old(f.mem[..]), staged)
    ensures f.mem[..] == Run(old(f.mem[..]), PromoteTrace(old(f.mem[..]), staged))
  {
    ghost var m, log := f.mem[..], f.log;
    ghost var data := m[staged..staged + AREA];
    assert RECOVERY_PAGE == 32512 && RECOVERY == 33292288 && AREA == 262144;
    PagesOfArea(0);
    hide *;
    Holds(f);
    PromoteTraceIs(m, staged);
    EraseSpiRegion(f, 0x7F0_0000, 0x10_0000, RECOVERY_PAGE);
    ErasePagesApart(m, RECOVERY_PAGE, RECOVERY_PAGE + PagesUpTo(0x10_0000), staged, AREA);
    CopyWords(f, RECOVERY, staged, AREA, data);
    Associative(log, EraseTrace(RECOVERY_PAGE, 0x10_0000), CopyOps(RECOVERY, data));
    Replayed(f, m, log, PromoteTrace(m, staged));
  }

  // perform_cpld_recovery_update
  method PerformCpldRecoveryUpdate(f: SpiFlash, c: OnChipFlash, staged: nat)
    requires Apart(f, c) && f.mem.Length >= RECOVERY + AREA && staged + AREA <= RECOVERY
    modifies f, f.mem, c, c.page, c.cfm1
    ensures Apart(f, c) && IsPage(old(Both(f, c)).page) && |old(Both(f, c)).bmc| == f.mem.Length
    ensures f.log == old(f.log) + PromoteTrace(old(f.mem[..]), staged)
    ensures Both(f, c) == Steps(old(Both(f, c)), Promote(old(Both(f, c)), staged), c.top)
  {
    ghost var s := Both(f, c);
    PromotedStore(s, staged, c.top);
    AsStore(f, c);
    hide *;
    BothIs(f, c);
    CopyStagingArea(f, staged);
    SvnStays(s.bmc, staged);
    var svn := ReadSvn(f, staged);
    BumpSvn(c, svn);
    StillApart(f, c);
    BothIs(f, c);
    EraseStatusSector(f, c);
    BothIs(f, c);
    StillApart(f, c);
  }

  lemma SvnStays(m: Mem, staged: nat)
    requires staged + AREA <= RECOVERY && RECOVERY + AREA <= |m|
    ensures staged + 256 < |m| && Svn(Run(m, PromoteTrace(m, staged)), staged) == Svn(m, staged)
  {
    var t := PromoteTrace(m, staged);
    assert t[..|t|] == t;
    PromoteOutside(m, staged, |t|);
    hide PromoteTrace, Run;
    SameOutsideSameCopy(m, Run(m, t), staged);
  }

  lemma PromotedStore(s: Store, staged: nat, top: nat)
    requires |s.page| == 59 && staged + AREA <= RECOVERY && RECOVERY + AREA <= |s.bmc|
    ensures IsPage(s.page)
    ensures Steps(s, Promote(s, staged), top)
         == s.(bmc := Run(s.bmc, PromoteTrace(s.bmc, staged)), status := ERASED,
               page := SvnWritten(s.page, CpldPolicy, Svn(s.bmc, staged)))
  {
    assert IsPage(s.page);
    hide *;
    Whole(Promote(s, staged));
    PromoteInOrder(s, staged, top, |Promote(s, staged)|);
    PromoteCopies(s.bmc, staged);
  }

  // The branch of recovery_main for a power cycle or a deliberate switch
  method AfterPowerUp(f: SpiFlash, c: OnChipFlash, d: Device, staged: nat)
    requires Ready(f, c, d, staged)
    modifies c, c.cfm1
    ensures LaidOut(old(Both(f, c)), d, staged, c.top)
    ensures RomPlan(d, old(Both(f, c)), staged, c.top, PowerUpOrSwitchToCfm0).Recover?
    ensures Both(f, c)
         == Steps(old(Both(f, c)), RomPlan(d, old(Both(f, c)), staged, c.top, PowerUpOrSwitchToCfm0).steps, c.top)
  {
    ghost var s := Both(f, c);
    ReadyParts(f, c, d, staged);
    RomPlanIs(d, s, staged, c.top, PowerUpOrSwitchToCfm0);
    NoSteps(s, [], c.top);
    hide *;
    var left := HasBreadcrumb(f, c);
    if left {
      PerformUpdatePostReconfig(f, c, d, staged);
    }
  }

  method HasBreadcrumb(f: SpiFlash, c: OnChipFlash) returns (left: bool)
    requires c.cfm1.Length >= 2
    ensures left == Breadcrumb(Both(f, c))
  {
    left := c.cfm1[c.cfm1.Length - 1] == 0;
  }

  // recovery_main after initialization: returns whether the BMC has to provide a capsule; otherwise
  // the device switches to CFM1
  method RecoveryMain(f: SpiFlash, c: OnChipFlash, d: Device, staged: nat, reason: Reason) returns (waits: bool)
    requires Ready(f, c, d, staged) && IsPage(Both(f, c).page) && StagedFits(d, Both(f, c), staged)
    modifies f, f.mem, c, c.cfm1
    ensures LaidOut(old(Both(f, c)), d, staged, c.top)
    ensures waits == RomPlan(d, old(Both(f, c)), staged, c.top, reason).WaitForBmc?
    ensures Both(f, c) == Steps(old(Both(f, c)), RomPlan(d, old(Both(f, c)), staged, c.top, reason).steps, c.top)
  {
    LaidOutNow(f, c, d, staged);
    RomCases(d, Both(f, c), staged, c.top, reason);
    hide *;
    if reason.PowerUpOrSwitchToCfm0? {
      AfterPowerUp(f, c, d, staged);
      waits := false;
    } else {
      waits := PerformCpldRecovery(f, c, d, staged);
    }
  }

  lemma LaidOutNow(f: SpiFlash, c: OnChipFlash, d: Device, staged: nat)
    requires Ready(f, c, d, staged)
    ensures LaidOut(Both(f, c), d, staged, c.top) && 288 + d.cpldImageWords <= AREA
  {
    hide Steps;
  }

  lemma RomPlanIs(d: Device, s: Store, staged: nat, top: nat, reason: Reason)
    requires LaidOut(s, d, staged, top) && 288 + d.cpldImageWords <= AREA
    ensures |s.cfm1| >= 2
    ensures RomPlan(d, s, staged, top, reason)
         == if reason == PowerUpOrSwitchToCfm0 then
              (if !Breadcrumb(s) then Recover([]) else Recover(PostReconfig(d, s, staged, top)))
            else RecoveryPlan(d, s, staged, top)
  {
    hide PostReconfig, RecoveryPlan;
  }
}
