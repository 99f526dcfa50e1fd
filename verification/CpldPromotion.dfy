/**
 Promotion of a staged CPLD capsule to the recovery region (perform_cpld_recovery_update in
 fw/code/inc/cpld_update.h): what holds when power is lost in the middle, and after a restart.
 */
module CpldPromotion {
  import opened NorFlash
  import opened Sequences
  import opened SpiRwUtils
  import opened Ufm
  import opened Authentication
  import opened PowerLoss
  import opened CpldSteps
  import opened CpldUpdate

  // The recovery area holds the staged area word for word
  predicate Promoted(s: Store, staged: nat)
    requires staged + AREA <= RECOVERY && RECOVERY + AREA <= |s.bmc|
  {
    s.bmc[RECOVERY..RECOVERY + AREA] == s.bmc[staged..staged + AREA]
  }

  // The BMC flash with the staged area copied over the recovery area
  function CopiedOver(m: Mem, staged: nat): (r: Mem)
    requires staged + AREA <= RECOVERY && RECOVERY + AREA <= |m|
    ensures |r| == |m|
  {
    m[..RECOVERY] + m[staged..staged + AREA] + m[RECOVERY + AREA..]
  }

  lemma PromoteCopies(m: Mem, staged: nat)
    requires staged + AREA <= RECOVERY && RECOVERY + AREA <= |m|
    ensures Run(m, PromoteTrace(m, staged)) == CopiedOver(m, staged)
  {
    PagesOfArea(0);
    PromoteTraceIs(m, staged);
    hide *;
    var data := m[staged..staged + AREA];
    ErasedThenCopied(m, RECOVERY_PAGE, RECOVERY_PAGE + PagesUpTo(0x10_0000), 0x10_0000, RECOVERY, data);
    RewrittenIsCopied(m, staged, data);
  }

  lemma PromoteTraceIs(m: Mem, staged: nat)
    requires staged + AREA <= |m|
    ensures PromoteTrace(m, staged) == EraseTrace(RECOVERY_PAGE, 0x10_0000) + CopyOps(RECOVERY, m[staged..staged + AREA])
  {
  }

  lemma RewrittenIsCopied(m: Mem, staged: nat, data: seq<Word>)
    requires staged + AREA <= RECOVERY && RECOVERY + AREA <= |m| && data == m[staged..staged + AREA]
    ensures Rewritten(m, RECOVERY_PAGE, RECOVERY_PAGE + 256, RECOVERY, data) == CopiedOver(m, staged)
  {
    forall i: nat | i < |m|
      ensures Rewritten(m, RECOVERY_PAGE, RECOVERY_PAGE + 256, RECOVERY, data)[i] == CopiedOver(m, staged)[i]
    {
      RecoveryArea(i);
    }
  }

  lemma PromoteTouches(m: Mem, staged: nat, op: Op, i: nat)
    requires staged + AREA <= |m| && op in PromoteTrace(m, staged) && Touches(op, i)
    ensures RECOVERY <= i < RECOVERY + AREA
  {
    PagesOfArea(0);
    RecoveryArea(i);
    hide EraseTrace, CopyOps, PagesUpTo, Touches;
    if op in EraseTrace(RECOVERY_PAGE, 0x10_0000) {
      EraseTouches(RECOVERY_PAGE, 0x10_0000, op, i);
    } else {
      CopyTouches(RECOVERY, m[staged..staged + AREA], op, i);
    }
  }

  // However far the copy got, only the recovery area differs
  lemma PromoteOutside(m: Mem, staged: nat, k: nat)
    requires staged + AREA <= RECOVERY && RECOVERY + AREA <= |m| && k <= |PromoteTrace(m, staged)|
    ensures var r := Run(m, PromoteTrace(m, staged)[..k]);
            r[..RECOVERY] == m[..RECOVERY] && r[RECOVERY + AREA..] == m[RECOVERY + AREA..]
  {
    var t := PromoteTrace(m, staged);
    var cut := t[..k];
    assert forall op | op in cut :: op in t;
    hide PromoteTrace, Run, Touches;
    forall i: nat | i < |m| && !(RECOVERY <= i < RECOVERY + AREA) ensures Run(m, cut)[i] == m[i] {
      forall op | op in cut ensures !Touches(op, i) {
        if Touches(op, i) {
          PromoteTouches(m, staged, op, i);
        }
      }
      RunFrame(m, cut, i);
    }
  }

  // A copy started again gives the same flash
  lemma SameOutsideSameCopy(m: Mem, r: Mem, staged: nat)
    requires staged + AREA <= RECOVERY && RECOVERY + AREA <= |m| && |r| == |m|
    requires r[..RECOVERY] == m[..RECOVERY] && r[RECOVERY + AREA..] == m[RECOVERY + AREA..]
    ensures CopiedOver(r, staged) == CopiedOver(m, staged) && r[staged..staged + AREA] == m[staged..staged + AREA]
    ensures Svn(r, staged) == Svn(m, staged)
  {
    SamePart(r, m, RECOVERY, staged, staged + AREA);
    assert r[staged + 256] == r[..RECOVERY][staged + 256] == m[..RECOVERY][staged + 256] == m[staged + 256];
  }

  // How far each of the three phases of a promotion got
  datatype Progress = Progress(copied: nat, bumped: nat, done: bool)

  ghost predicate Reached(s: Store, r: Store, copy: seq<Op>, bump: seq<Op>, p: Progress) {
    && p.copied <= |copy| && p.bumped <= |bump| && (p.bumped > 0 || p.done ==> p.copied == |copy|)
    && (p.done ==> p.bumped == |bump|)
    && r == s.(bmc := Run(s.bmc, copy[..p.copied]), page := Run(s.page, bump[..p.bumped]),
               status := if p.done then ERASED else s.status)
  }

  // Every prefix of a promotion is somewhere in its phases
  lemma PromotePrefix(s: Store, copy: seq<Op>, bump: seq<Op>, top: nat, k: nat) returns (p: Progress)
    requires k <= |OnBmc(copy) + OnPage(bump) + [EraseStatus]|
    ensures Reached(s, Steps(s, (OnBmc(copy) + OnPage(bump) + [EraseStatus])[..k], top), copy, bump, p)
    ensures p.done <==> k == |OnBmc(copy) + OnPage(bump) + [EraseStatus]|
  {
    if k <= |copy| + |bump| {
      PhasePrefix(s, OnBmc(copy) + OnPage(bump), [EraseStatus], k, top);
      if k <= |copy| {
        PhasePrefix(s, OnBmc(copy), OnPage(bump), k, top);
        CopyPhase(s, copy, bump, k, top);
        p := Progress(k, 0, false);
      } else {
        BumpPhase(s, copy, bump, k - |copy|, top);
        p := Progress(|copy|, k - |copy|, false);
      }
    } else {
      LastPhase(s, copy, bump, k, top);
      p := Progress(|copy|, |bump|, true);
    }
    hide OnBmc, OnPage, Steps, Run;
  }

  lemma LastPhase(s: Store, copy: seq<Op>, bump: seq<Op>, k: nat, top: nat)
    requires |copy| + |bump| < k <= |OnBmc(copy) + OnPage(bump) + [EraseStatus]|
    ensures k == |OnBmc(copy) + OnPage(bump) + [EraseStatus]|
    ensures Steps(s, (OnBmc(copy) + OnPage(bump) + [EraseStatus])[..k], top)
         == s.(bmc := Run(s.bmc, copy[..|copy|]), page := Run(s.page, bump[..|bump|]), status := ERASED)
  {
    hide *;
    var both := OnBmc(copy) + OnPage(bump);
    BumpPhase(s, copy, bump, |bump|, top);
    assert both[..|copy| + |bump|] == both;
    StepsConcat(s, both, [EraseStatus], top);
    EndPhase(Steps(s, both, top), top);
    assert (both + [EraseStatus])[..k] == both + [EraseStatus];
  }

  lemma PromoteIs(s: Store, staged: nat)
    requires IsPage(s.page) && staged + AREA <= |s.bmc|
    ensures Promote(s, staged) == OnBmc(PromoteTrace(s.bmc, staged))
              + OnPage(SvnWrites(s.page, CpldPolicy, Svn(s.bmc, staged))) + [EraseStatus]
  {
  }

  lemma CopyPhase(s: Store, copy: seq<Op>, bump: seq<Op>, k: nat, top: nat)
    requires k <= |copy|
    ensures Steps(s, OnBmc(copy)[..k], top) == s.(bmc := Run(s.bmc, copy[..k]), page := Run(s.page, bump[..0]))
  {
    hide *;
    OnBmcPrefix(copy, k);
    BmcSteps(s, copy[..k], top);
    NothingRun(s.page, bump);
  }

  lemma NothingRun(m: Mem, t: seq<Op>)
    ensures Run(m, t[..0]) == m
  {
    assert t[..0] == [];
  }

  lemma BumpPhase(s: Store, copy: seq<Op>, bump: seq<Op>, k: nat, top: nat)
    requires k <= |bump|
    ensures Steps(s, (OnBmc(copy) + OnPage(bump))[..|copy| + k], top)
         == s.(bmc := Run(s.bmc, copy[..|copy|]), page := Run(s.page, bump[..k]))
  {
    hide *;
    PhasePrefix(s, OnBmc(copy), OnPage(bump), |copy| + k, top);
    assert copy[..|copy|] == copy;
    BmcSteps(s, copy, top);
    OnBmcPrefix(bump, k);
    PageSteps(s.(bmc := Run(s.bmc, copy)), bump[..k], top);
  }

  lemma EndPhase(s: Store, top: nat)
    ensures Steps(s, [EraseStatus], top) == s.(status := ERASED)
  {
    OneStep(s, EraseStatus, top);
  }

  // The status word stays as it is until the copy and the SVN bump are both complete, and the
  // minimum SVN rises only after the recovery area holds the whole staged capsule
  lemma PromoteInOrder(s: Store, staged: nat, top: nat, k: nat)
    requires IsPage(s.page) && staged + AREA <= RECOVERY && RECOVERY + AREA <= |s.bmc| && k <= |Promote(s, staged)|
    ensures var r := Steps(s, Promote(s, staged)[..k], top);
            && (k < |Promote(s, staged)| ==> r.status == s.status)
            && (k == |Promote(s, staged)| ==> r == s.(bmc := CopiedOver(s.bmc, staged), status := ERASED,
                                                     page := SvnWritten(s.page, CpldPolicy, Svn(s.bmc, staged))))
            && (r.page != s.page ==> Promoted(r, staged))
  {
    PromoteIs(s, staged);
    var copy, bump := PromoteTrace(s.bmc, staged), SvnWrites(s.page, CpldPolicy, Svn(s.bmc, staged));
    var p := PromotePrefix(s, copy, bump, top, k);
    PromoteCopies(s.bmc, staged);
    CopiedOverHolds(s.bmc, staged);
    NothingRun(s.page, bump);
    assert SvnWritten(s.page, CpldPolicy, Svn(s.bmc, staged)) == Run(s.page, bump);
    assert copy[..|copy|] == copy && bump[..|bump|] == bump;
    hide Promote, PromoteTrace, SvnWrites, Run, Steps, CopiedOver, SvnWritten, OnBmc, OnPage;
  }

  lemma CopiedOverHolds(m: Mem, staged: nat)
    requires staged + AREA <= RECOVERY && RECOVERY + AREA <= |m|
    ensures var r := CopiedOver(m, staged); r[RECOVERY..RECOVERY + AREA] == r[staged..staged + AREA] == m[staged..staged + AREA]
  {
  }

  // Promotion started again after power was lost anywhere ends in the same state
  lemma PromoteRestarts(s: Store, staged: nat, top: nat, k: nat)
    requires IsPage(s.page) && staged + AREA <= RECOVERY && RECOVERY + AREA <= |s.bmc| && k <= |Promote(s, staged)|
    ensures var r := Steps(s, Promote(s, staged)[..k], top);
            IsPage(r.page) && Steps(r, Promote(r, staged), top) == Steps(s, Promote(s, staged), top)
  {
    var r, svn := Steps(s, Promote(s, staged)[..k], top), Svn(s.bmc, staged);
    SamePageSize(s, r);
    hide *;
    PromoteIs(s, staged);
    var p := PromotePrefix(s, PromoteTrace(s.bmc, staged), SvnWrites(s.page, CpldPolicy, svn), top, k);
    ReachedParts(s, r, PromoteTrace(s.bmc, staged), SvnWrites(s.page, CpldPolicy, svn), p);
    PromoteOutside(s.bmc, staged, p.copied);
    SameOutsideSameCopy(s.bmc, r.bmc, staged);
    SvnWriteRestarts(s.page, CpldPolicy, svn, p.bumped);
    Whole(Promote(s, staged));
    Whole(Promote(r, staged));
    PromoteInOrder(s, staged, top, |Promote(s, staged)|);
    PromoteInOrder(r, staged, top, |Promote(r, staged)|);
  }

  lemma ReachedParts(s: Store, r: Store, copy: seq<Op>, bump: seq<Op>, p: Progress)
    requires Reached(s, r, copy, bump, p)
    ensures p.copied <= |copy| && p.bumped <= |bump|
    ensures r.bmc == Run(s.bmc, copy[..p.copied]) && r.page == Run(s.page, bump[..p.bumped]) && r.cfm1 == s.cfm1
  {
  }

  lemma SamePageSize(s: Store, r: Store)
    requires IsPage(s.page) && |r.page| == |s.page|
    ensures IsPage(r.page)
  {
  }

  lemma Whole(t: seq<Step>)
    ensures t[..|t|] == t
  {
  }
}
