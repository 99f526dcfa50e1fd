/**
 The CPLD update told by the words of both flashes: the format of a CPLD capsule, what one run of the ROM
 image leaves for each reason and breadcrumb, and what a promotion leaves.
 */
module CpldLaws {
  import opened NorFlash
  import opened Sequences
  import opened SpiRwUtils
  import opened Ufm
  import opened Authentication
  import opened PowerLoss
  import opened CpldSteps
  import opened CpldUpdate
  import opened CpldPromotion

  // ---------------------------------------------------------------- the capsule

  // A signed CPLD capsule: 256 words of signature, the SVN, the bitstream, and padding
  datatype Capsule = Capsule(signature: seq<Word>, svn: Word, bitstream: seq<Word>, padding: seq<Word>) {
    function Words(): seq<Word> { signature + [svn] + bitstream + padding }
    predicate Formed(d: Device) { |signature| == 256 && |bitstream| == d.cpldImageWords && |padding| == 31 }
  }

  // Wherever it lies, such a capsule is read by field, and its length is the one that authentication wants: the
  // length in its signature is that of all behind the signature
  lemma CapsuleIsRead(d: Device, c: Capsule, m: Mem, at: nat)
    requires c.Formed(d) && at + 288 + d.cpldImageWords <= |m| && m[at..at + 288 + d.cpldImageWords] == c.Words()
    ensures Svn(m, at) == c.svn as nat && Bitstream(m, at, d.cpldImageWords) == c.bitstream
    ensures HasSignature(c.Words()) && (KchPcType(c.Words()) == 0 && !IsCertificate(c.Words()) && !IsDecommission(c.Words()) ==>
              (LengthAllowed(d, c.Words()) <==> PcLength(c.Words()) == 4 * (|c.Words()| - 256)))
  {
    CapsuleWords(c, d.cpldImageWords);
    var w := m[at..at + 288 + d.cpldImageWords];
    assert m[at + 256] == w[256];
    BitstreamWords(m, at, w, c.bitstream);
    assert |c.Words()| == 288 + d.cpldImageWords;
    hide KchPcType, IsCertificate, IsDecommission, PcLength;
  }

  lemma CapsuleWords(c: Capsule, n: nat)
    requires |c.signature| == 256 && |c.bitstream| == n && |c.padding| == 31
    ensures |c.Words()| == 288 + n && c.Words()[256] == c.svn && c.Words()[257..257 + n] == c.bitstream
  {
  }

  lemma BitstreamWords(m: Mem, at: nat, w: seq<Word>, b: seq<Word>)
    requires at + |w| <= |m| && w == m[at..at + |w|] && 257 + |b| <= |w| && w[257..257 + |b|] == b
    ensures m[at + 257..at + 257 + |b|] == b
  {
    var x := m[at + 257..at + 257 + |b|];
    forall k | 0 <= k < |b| ensures x[k] == b[k] {
      assert x[k] == w[257 + k] && b[k] == w[257..257 + |b|][k];
    }
  }

  // ---------------------------------------------------------------- one run of the ROM image

  // CFM1 holds the bitstream of the capsule at a place, word for word
  predicate Holds(cfm1: Mem, m: Mem, at: nat, n: nat) {
    |cfm1| == n && at + 257 + n <= |m| && forall k | 0 <= k < n :: cfm1[k] == m[at + 257 + k]
  }

  // The words in the recovery area after a restore: the payload at its start, all else erased
  function RestoredWord(c: seq<Word>, j: nat, before: Word): Word {
    if 33292288 <= j < 33554432 then (if j - 33292288 < |c| then c[j - 33292288] else ERASED) else before
  }

  // A run of the ROM image after power-up or a switch to it: with a breadcrumb in the last word of CFM1 and an
  // authentic staged capsule whose SVN is not below the minimum, CFM1 holds the bitstream of that capsule;
  // otherwise nothing is written. Nothing but CFM1 changes.
  lemma UpdateRun(d: Device, s: Store, staged: nat, top: nat)
    requires LaidOut(s, d, staged, top) && 288 + d.cpldImageWords <= AREA
    ensures IsPage(s.page) && staged + 256 < |s.bmc| && s.cfm1 != []
    ensures var r, last := Pass(d, s, staged, top, PowerUpOrSwitchToCfm0), s.cfm1[|s.cfm1| - 1];
            && r == s.(cfm1 := r.cfm1)
            && (if last == 0 && s.bmc[staged + 256] as nat >= UfmSvn(s.page, CpldPolicy) && ValidAt(d, s.page, s.bmc, staged)
                then Holds(r.cfm1, s.bmc, staged, d.cpldImageWords) else r == s)
  {
    hide *;
    LaidOutParts(d, s, staged, top);
    PassIs(d, s, staged, top, PowerUpOrSwitchToCfm0);
    UpdatePlan(d, s, staged, top);
    var img := Bitstream(s.bmc, staged, d.cpldImageWords);
    var t := RomPlan(d, s, staged, top, PowerUpOrSwitchToCfm0).steps;
    NoSteps(s, t, top);
    RewrittenWhole(s, img, top);
    HoldsIt(s.bmc, staged, d.cpldImageWords);
    InFlash(s, staged);
  }

  lemma InFlash(s: Store, staged: nat)
    requires RECOVERY + AREA <= |s.bmc| && staged + AREA <= RECOVERY
    ensures staged + 256 < |s.bmc| && RECOVERY + 256 < |s.bmc|
  {
  }

  lemma UpdatePlan(d: Device, s: Store, staged: nat, top: nat)
    requires LaidOut(s, d, staged, top) && 288 + d.cpldImageWords <= AREA
    ensures IsPage(s.page) && staged + 256 < |s.bmc| && s.cfm1 != [] && staged + 257 + d.cpldImageWords <= |s.bmc|
    ensures Bitstream(s.bmc, staged, d.cpldImageWords) != []
    ensures var t := RomPlan(d, s, staged, top, PowerUpOrSwitchToCfm0).steps;
            t == if s.cfm1[|s.cfm1| - 1] == 0 && s.bmc[staged + 256] as nat >= UfmSvn(s.page, CpldPolicy) && ValidAt(d, s.page, s.bmc, staged)
                 then RewriteCfm1(Bitstream(s.bmc, staged, d.cpldImageWords)) else []
  {
    hide ValidAt, UfmSvn, RewriteCfm1;
  }

  lemma HoldsIt(m: Mem, at: nat, n: nat)
    requires at + 257 + n <= |m|
    ensures Holds(Bitstream(m, at, n), m, at, n)
  {
  }

  // A run after a failure: the update status word is erased in any case. With an authentic recovery capsule CFM1
  // holds its bitstream, and nothing else changes. Otherwise an authentic staged CPLD capsule is put into the
  // recovery area, which is erased behind it, and CFM1 holds its bitstream. Without either the BMC is awaited.
  lemma RecoveryRun(d: Device, s: Store, staged: nat, top: nat)
    requires LaidOut(s, d, staged, top) && 288 + d.cpldImageWords <= AREA && IsPage(s.page)
    ensures var r := Pass(d, s, staged, top, Failure);
            && r.status == ERASED && r.page == s.page && |r.bmc| == |s.bmc|
            && (ValidAt(d, s.page, s.bmc, RECOVERY) ==> r.bmc == s.bmc && Holds(r.cfm1, s.bmc, 33292288, d.cpldImageWords))
            && (!ValidAt(d, s.page, s.bmc, RECOVERY) && CpldCapsule(d, s, staged) ==>
                  && HoldsPayload(s.bmc, staged) && Holds(r.cfm1, s.bmc, staged, d.cpldImageWords)
                  && forall j: nat | j < |s.bmc| :: r.bmc[j] == RestoredWord(PayloadAt(s.bmc, staged), j, s.bmc[j]))
            && (RomPlan(d, s, staged, top, Failure).WaitForBmc?
                <==> !ValidAt(d, s.page, s.bmc, RECOVERY) && !ValidAt(d, s.page, s.bmc, staged))
            && (RomPlan(d, s, staged, top, Failure).WaitForBmc? ==> r == s.(status := ERASED))
  {
    FailurePlan(d, s, staged, top);
    LaidOutParts(d, s, staged, top);
    RecoveryCases(d, s, staged, top);
    CpldParts(d, s, staged);
    Places();
    hide *;
    PassIs(d, s, staged, top, Failure);
    if ValidAt(d, s.page, s.bmc, RECOVERY) {
      FromRecovery(d, s, staged, top);
    } else if ValidAt(d, s.page, s.bmc, staged) {
      StagedRuns(d, s, staged, top);
    } else {
      EraseStatusStep(s, top);
      StatusErasedIs(s);
    }
  }

  lemma Places()
    ensures RECOVERY == 33292288 && AREA == 262144 && RECOVERY_PAGE * 1024 == RECOVERY
  {
  }

  lemma FailurePlan(d: Device, s: Store, staged: nat, top: nat)
    requires LaidOut(s, d, staged, top) && 288 + d.cpldImageWords <= AREA
    ensures RomPlan(d, s, staged, top, Failure) == RecoveryPlan(d, s, staged, top)
  {
    hide RecoveryPlan, PostReconfig;
  }

  lemma FromRecovery(d: Device, s: Store, staged: nat, top: nat)
    requires LaidOut(s, d, staged, top) && 288 + d.cpldImageWords <= AREA && RECOVERY + AREA <= |s.bmc|
    ensures RECOVERY + 257 + d.cpldImageWords <= |s.bmc|
    ensures var img := Bitstream(s.bmc, RECOVERY, d.cpldImageWords);
            && Steps(s, [EraseStatus] + RewriteCfm1(img), top) == s.(status := ERASED, cfm1 := img)
            && Holds(img, s.bmc, RECOVERY, d.cpldImageWords)
  {
    LaidOutParts(d, s, staged, top);
    hide *;
    Fits(s.bmc, RECOVERY, d.cpldImageWords);
    var img := Bitstream(s.bmc, RECOVERY, d.cpldImageWords);
    StepsConcat(s, [EraseStatus], RewriteCfm1(img), top);
    EraseStatusStep(s, top);
    StatusErasedIs(s);
    RewrittenWhole(StatusErased(s), img, top);
    HoldsIt(s.bmc, RECOVERY, d.cpldImageWords);
  }

  lemma Fits(m: Mem, at: nat, n: nat)
    requires at + AREA <= |m| && 288 + n <= AREA
    ensures at + 257 + n <= |m|
  {
  }

  // The part of such a run that goes by the staged payload
  lemma StagedRuns(d: Device, s: Store, staged: nat, top: nat)
    requires LaidOut(s, d, staged, top) && 288 + d.cpldImageWords <= AREA && IsPage(s.page)
    requires staged + AREA <= RECOVERY && RECOVERY + AREA <= |s.bmc| && HoldsPayload(s.bmc, staged)
    ensures RECOVERY + 257 + d.cpldImageWords <= |Restored(s.bmc, staged)|
    ensures var img := Bitstream(Restored(s.bmc, staged), RECOVERY, d.cpldImageWords);
            var r := Steps(s, [EraseStatus] + OnBmc(RestoreTrace(s.bmc, staged)) + RewriteCfm1(img), top);
            && r == s.(status := ERASED, bmc := Restored(s.bmc, staged), cfm1 := img)
            && (CpldCapsule(d, s, staged) ==>
                  && Holds(r.cfm1, s.bmc, staged, d.cpldImageWords)
                  && forall j: nat | j < |s.bmc| :: r.bmc[j] == RestoredWord(PayloadAt(s.bmc, staged), j, s.bmc[j]))
  {
    LaidOutParts(d, s, staged, top);
    hide *;
    Fits(Restored(s.bmc, staged), RECOVERY, d.cpldImageWords);
    var img, a := Bitstream(Restored(s.bmc, staged), RECOVERY, d.cpldImageWords), [EraseStatus] + OnBmc(RestoreTrace(s.bmc, staged));
    StepsConcat(s, a, RewriteCfm1(img), top);
    RestoreEnds(s, staged, top);
    RewrittenWhole(s.(status := ERASED, bmc := Restored(s.bmc, staged)), img, top);
    if CpldCapsule(d, s, staged) {
      RestoreCompletes(d, s, staged);
      Fits(s.bmc, staged, d.cpldImageWords);
      HoldsIt(s.bmc, staged, d.cpldImageWords);
      RestoreReady(d, s, staged);
      RestoredWords(s.bmc, staged, SignedPayloadSize(s.bmc, staged), PayloadAt(s.bmc, staged));
    }
  }

  lemma RestoredWords(m: Mem, staged: nat, n: nat, c: seq<Word>)
    requires staged + 1 < |m| && HoldsPayload(m, staged) && n == SignedPayloadSize(m, staged) && c == PayloadAt(m, staged)
    requires WordsAt(m, staged, c) && staged + AREA <= RECOVERY && RECOVERY + AREA <= |m| && |c| <= AREA
    requires n == 4 * |c| && n % 16 == 0
    ensures forall j: nat | j < |m| :: Restored(m, staged)[j] == RestoredWord(c, j, m[j])
  {
    var erased := ErasePages(m, RECOVERY_PAGE, RECOVERY_PAGE + PagesUpTo(0x10_0000));
    EraseTraceIsExact(m, RECOVERY_PAGE, 0x10_0000);
    RestoredInSteps(m, staged, erased);
    PagesOfArea(n);
    CopyFitsArea(m, n, c);
    hide Run, EraseTrace, MemcpyTrace, HoldsPayload, PayloadAt, SignedPayloadSize, WordsAt, Restored, ErasePages, Rewritten, PagesUpTo;
    CopyExact(erased, RECOVERY_PAGE, RECOVERY_PAGE + PagesUpTo(n), n, c);
    TwiceErased(m, n, c, PagesUpTo(n));
  }

  lemma CopyFitsArea(m: Mem, n: nat, c: seq<Word>)
    requires RECOVERY + AREA <= |m| && |c| <= AREA && n == 4 * |c|
    ensures 1024 * RECOVERY_PAGE + |c| <= |m| && PagesUpTo(n) <= 256 && |c| <= 1024 * PagesUpTo(n) && 1024 * RECOVERY_PAGE == RECOVERY
  {
  }

  lemma TwiceErased(m: Mem, n: nat, c: seq<Word>, pages: nat)
    requires pages <= 256 && |c| <= AREA && PagesUpTo(0x10_0000) == 256 && |c| <= 1024 * pages
    ensures var erased := ErasePages(m, RECOVERY_PAGE, RECOVERY_PAGE + PagesUpTo(0x10_0000));
            var r := Rewritten(erased, RECOVERY_PAGE, RECOVERY_PAGE + pages, 1024 * RECOVERY_PAGE, c);
            |r| == |m| && forall j: nat | j < |m| :: r[j] == RestoredWord(c, j, m[j])
  {
    forall j: nat | j < |m|
      ensures var erased := ErasePages(m, RECOVERY_PAGE, RECOVERY_PAGE + 256);
              Rewritten(erased, RECOVERY_PAGE, RECOVERY_PAGE + pages, 1024 * RECOVERY_PAGE, c)[j] == RestoredWord(c, j, m[j])
    {
      PageOf(j);
    }
  }

  lemma PageOf(j: nat)
    ensures 32512 <= j / 1024 < 32768 <==> 33292288 <= j < 33554432
  {
  }

  // ---------------------------------------------------------------- a promotion

  // A promotion that is not cut short: the 1MB of the recovery area are those of the staged one, word for word,
  // the minimum SVN is raised to that of the staged capsule, the status word is erased, and CFM1 stays
  lemma PromotionLeaves(s: Store, staged: nat, top: nat)
    requires IsPage(s.page) && staged + AREA <= RECOVERY && RECOVERY + AREA <= |s.bmc|
    ensures staged + 256 < |s.bmc|
    ensures var r := Steps(s, Promote(s, staged), top);
            && r.status == ERASED && r.cfm1 == s.cfm1 && |r.bmc| == |s.bmc|
            && r.page == SvnWritten(s.page, CpldPolicy, s.bmc[staged + 256] as nat)
            && forall j: nat | j < |s.bmc| :: r.bmc[j] == CopiedFrom(s.bmc, staged, j)
  {
    PromoteInOrder(s, staged, top, |Promote(s, staged)|);
    SvnIs(s.bmc, staged);
    Whole(Promote(s, staged));
    CopiedWords(s.bmc, staged);
    hide *;
  }

  // Word j of the BMC flash with the staged area copied over the recovery area
  function CopiedFrom(m: Mem, staged: nat, j: nat): Word
    requires j < |m| && staged + 262144 <= |m|
  {
    if 33292288 <= j < 33554432 then m[staged + j - 33292288] else m[j]
  }

  lemma SvnIs(m: Mem, staged: nat)
    requires staged + AREA <= RECOVERY && RECOVERY + AREA <= |m|
    ensures staged + 256 < |m| && Svn(m, staged) == m[staged + 256] as nat && staged + 262144 <= |m|
  {
  }

  lemma CopiedWords(m: Mem, staged: nat)
    requires staged + AREA <= RECOVERY && RECOVERY + AREA <= |m|
    ensures forall j: nat | j < |m| :: CopiedOver(m, staged)[j] == CopiedFrom(m, staged, j)
  {
    var part := m[staged..staged + AREA];
    forall j: nat | j < |m| ensures CopiedOver(m, staged)[j] == CopiedFrom(m, staged, j) {
      if RECOVERY <= j < RECOVERY + AREA {
        assert CopiedOver(m, staged)[j] == part[j - RECOVERY];
      }
    }
  }
}
