/**
 The CPLD update protocol (fw/code/inc/cpld_update.h, cpld_recovery.h, recovery_main.h): the ROM
 image in CFM0 rewrites the active image in CFM1 from capsules on the BMC flash, guided by the reason
 of the last reconfiguration and a breadcrumb in the last word of CFM1.
 */
module CpldUpdate {
  import opened NorFlash
  import opened Sequences
  import opened SpiRwUtils
  import opened Ufm
  import opened Authentication
  import opened PowerLoss
  import opened CpldSteps

  // BMC_CPLD_RECOVERY_IMAGE_OFFSET as a 4KB page and as a word offset, and the words of the 1MB there
  const RECOVERY_PAGE: nat := 32512
  const RECOVERY: nat := 33292288
  const AREA: nat := 262144

  // The two places for CPLD capsules on the BMC flash; staged is a word offset
  predicate LaidOut(s: Store, d: Device, staged: nat, top: nat) {
    && IsPage(s.page) && |s.cfm1| == d.cpldImageWords >= 2 && 0 < top <= |s.cfm1|
    && |s.bmc| >= RECOVERY + AREA && staged + AREA <= RECOVERY
  }

  // The bitstream of a CPLD capsule follows its SVN
  function Bitstream(m: Mem, at: nat, n: nat): (r: Mem)
    requires at + 257 + n <= |m|
    ensures |r| == n
  {
    m[at + 257..at + 257 + n]
  }

  function Svn(m: Mem, at: nat): nat
    requires at + 256 < |m|
  {
    m[at + 256] as nat
  }

  // ---------------------------------------------------------------- good copies

  // Whether the hardware starts an image; the last word of CFM1 is not part of it
  type Hardware = Mem -> bool

  predicate Starts(boots: Hardware, img: Mem) { |img| >= 2 && boots(img[..|img| - 1]) }

  predicate Complete(boots: Hardware, s: Store) { Starts(boots, s.cfm1) }

  // The hardware takes an image whose first word is erased for none, which is why that word is written last
  ghost predicate ErasedNeverStarts(boots: Hardware) {
    forall img: Mem | img != [] && img[0] == ERASED :: !boots(img)
  }

  predicate IsCpldCapsule(s: seq<Word>) {
    HasSignature(s) && KchPcType(s) == 0 && !IsCertificate(s) && !IsDecommission(s)
  }

  // An image that starts, and whose last word does not read as a breadcrumb
  predicate GoodImage(boots: Hardware, img: Mem) { Starts(boots, img) && img[|img| - 1] != 0 }

  // An authentic CPLD update capsule, and one with such an image
  predicate CpldCapsule(d: Device, s: Store, at: nat)
    requires IsPage(s.page)
  {
    && at + AREA <= |s.bmc| && 288 + d.cpldImageWords <= AREA
    && ValidAt(d, s.page, s.bmc, at) && IsCpldCapsule(PayloadAt(s.bmc, at))
  }

  predicate GoodCapsule(d: Device, boots: Hardware, s: Store, at: nat)
    requires IsPage(s.page)
  {
    CpldCapsule(d, s, at) && GoodImage(boots, Bitstream(s.bmc, at, d.cpldImageWords))
  }

  predicate HasGoodCopy(d: Device, boots: Hardware, s: Store, staged: nat)
    requires IsPage(s.page)
  {
    Complete(boots, s) || GoodCapsule(d, boots, s, staged) || GoodCapsule(d, boots, s, RECOVERY)
  }

  // ---------------------------------------------------------------- the four flows

  // perform_update_post_reconfig
  function PostReconfig(d: Device, s: Store, staged: nat, top: nat): seq<Step>
    requires LaidOut(s, d, staged, top) && 288 + d.cpldImageWords <= AREA
  {
    if Svn(s.bmc, staged) < UfmSvn(s.page, CpldPolicy) || !ValidAt(d, s.page, s.bmc, staged) then []
    else RewriteCfm1(Bitstream(s.bmc, staged, d.cpldImageWords))
  }

  // Copying the staged capsule over an invalid recovery capsule
  function RestoreTrace(m: Mem, staged: nat): seq<Op>
    requires HoldsPayload(m, staged)
  {
    EraseTrace(RECOVERY_PAGE, 0x10_0000)
      + MemcpyTrace(RECOVERY_PAGE, SignedPayloadSize(m, staged), PayloadAt(m, staged))
  }

  function Restored(m: Mem, staged: nat): (r: Mem)
    requires HoldsPayload(m, staged)
    ensures |r| == |m|
  {
    Run(m, RestoreTrace(m, staged))
  }

  // What one run of the ROM image writes; with neither capsule valid it then boots the BMC and waits
  // for a capsule instead of switching to CFM1
  datatype Plan = WaitForBmc(steps: seq<Step>) | Recover(steps: seq<Step>)

  // perform_cpld_recovery
  function RecoveryPlan(d: Device, s: Store, staged: nat, top: nat): Plan
    requires LaidOut(s, d, staged, top) && 288 + d.cpldImageWords <= AREA
  {
    if ValidAt(d, s.page, s.bmc, RECOVERY) then
      Recover([EraseStatus] + RewriteCfm1(Bitstream(s.bmc, RECOVERY, d.cpldImageWords)))
    else if ValidAt(d, s.page, s.bmc, staged) then
      Recover([EraseStatus] + OnBmc(RestoreTrace(s.bmc, staged))
              + RewriteCfm1(Bitstream(Restored(s.bmc, staged), RECOVERY, d.cpldImageWords)))
    else WaitForBmc([EraseStatus])
  }

  // trigger_cpld_update
  function Trigger(n: nat, recovery: bool): seq<Step>
    requires n >= 2
  {
    (if recovery then [ClearStatus] else []) + [Cfm(n - 1, 0)]
  }

  // The copy of perform_cpld_recovery_update
  function PromoteTrace(m: Mem, staged: nat): seq<Op>
    requires staged + AREA <= |m|
  {
    EraseTrace(RECOVERY_PAGE, 0x10_0000) + CopyOps(RECOVERY, m[staged..staged + AREA])
  }

  // perform_cpld_recovery_update
  function Promote(s: Store, staged: nat): seq<Step>
    requires IsPage(s.page) && staged + AREA <= |s.bmc|
  {
    OnBmc(PromoteTrace(s.bmc, staged)) + OnPage(SvnWrites(s.page, CpldPolicy, Svn(s.bmc, staged))) + [EraseStatus]
  }

  // ---------------------------------------------------------------- capsules that stay

  lemma CpldParts(d: Device, s: Store, at: nat)
    requires IsPage(s.page)
    ensures CpldCapsule(d, s, at) <==>
              && at + AREA <= |s.bmc| && 288 + d.cpldImageWords <= AREA && HoldsPayload(s.bmc, at)
              && ValidAt(d, s.page, s.bmc, at) && SignatureValid(d, s.page, PayloadAt(s.bmc, at))
              && IsCpldCapsule(PayloadAt(s.bmc, at))
  {
    hide SignatureValid, PayloadAt, IsCpldCapsule, SignedPayloadSize;
  }

  lemma GoodIsCpld(d: Device, boots: Hardware, s: Store, at: nat)
    requires IsPage(s.page)
    ensures GoodCapsule(d, boots, s, at) ==> CpldCapsule(d, s, at)
  {
    hide CpldCapsule, GoodImage;
  }

  lemma SameBmcSameCapsule(d: Device, boots: Hardware, s: Store, r: Store, at: nat)
    requires IsPage(s.page) && r.bmc == s.bmc && r.page == s.page
    ensures GoodCapsule(d, boots, r, at) <==> GoodCapsule(d, boots, s, at)
  {
    hide ValidAt, PayloadAt, GoodImage, IsCpldCapsule;
  }

  lemma CapsuleLength(d: Device, u: Mem, s: seq<Word>)
    requires IsPage(u) && SignatureValid(d, u, s) && IsCpldCapsule(s)
    ensures HasSignature(s) && PcLength(s) == 128 + 4 * d.cpldImageWords
  {
    hide Block1Valid, CertContentValid, AllZero, IsCertificate, IsDecommission, KchPcType, PcLength;
    assert LengthAllowed(d, s);
  }

  // The payload of a CPLD capsule is long enough to hold its bitstream
  lemma CapsuleWords(d: Device, s: Store, at: nat)
    requires IsPage(s.page) && CpldCapsule(d, s, at)
    ensures HoldsPayload(s.bmc, at) && at + AREA <= |s.bmc|
    ensures |PayloadAt(s.bmc, at)| == 288 + d.cpldImageWords <= AREA && WordsAt(s.bmc, at, PayloadAt(s.bmc, at))
    ensures SignedPayloadSize(s.bmc, at) == 4 * |PayloadAt(s.bmc, at)|
  {
    hide *;
    CpldParts(d, s, at);
    var p, n := PayloadAt(s.bmc, at), SignedPayloadSize(s.bmc, at);
    CapsuleLength(d, s.page, p);
    PayloadLength(s.bmc, at);
    CpldPayload(n, PcLength(p), d.cpldImageWords);
    PayloadInPlace(s.bmc, at);
  }

  lemma PayloadInPlace(m: Mem, at: nat)
    requires HoldsPayload(m, at)
    ensures WordsAt(m, at, PayloadAt(m, at))
  {
    AtItsPlace(m, at);
  }

  lemma BitstreamOf(m: Mem, at: nat, p: seq<Word>, n: nat)
    requires WordsAt(m, at, p) && 257 + n <= |p|
    ensures at + 257 + n <= |m| && Bitstream(m, at, n) == p[257..257 + n]
  {
    PartOfSlice(m, at, p, 257, n);
  }

  // A CPLD capsule copied elsewhere with the same provisioned data is one there, with the same image
  lemma CapsuleCopied(d: Device, s: Store, at: nat, r: Store, to: nat)
    requires IsPage(s.page) && CpldCapsule(d, s, at) && r.page == s.page && to + AREA <= |r.bmc|
    requires HoldsPayload(s.bmc, at) && WordsAt(r.bmc, to, PayloadAt(s.bmc, at))
    ensures at + AREA <= |s.bmc| && 288 + d.cpldImageWords <= AREA && CpldCapsule(d, r, to)
    ensures Bitstream(r.bmc, to, d.cpldImageWords) == Bitstream(s.bmc, at, d.cpldImageWords)
  {
    hide *;
    CpldParts(d, s, at);
    CapsuleWords(d, s, at);
    var p := PayloadAt(s.bmc, at);
    SameVerdict(d, s.page, s.bmc, at, r.bmc, to);
    VerdictParts(d, s.page, r.bmc, to);
    CpldParts(d, r, to);
    BitstreamOf(s.bmc, at, p, d.cpldImageWords);
    BitstreamOf(r.bmc, to, p, d.cpldImageWords);
  }

  // Two CPLD capsules with the same image are both good or not
  lemma CopiedGood(d: Device, boots: Hardware, s: Store, at: nat, r: Store, to: nat)
    requires IsPage(s.page) && IsPage(r.page) && CpldCapsule(d, s, at) && CpldCapsule(d, r, to)
    requires at + 257 + d.cpldImageWords <= |s.bmc| && to + 257 + d.cpldImageWords <= |r.bmc|
    requires Bitstream(r.bmc, to, d.cpldImageWords) == Bitstream(s.bmc, at, d.cpldImageWords)
    ensures GoodCapsule(d, boots, r, to) <==> GoodCapsule(d, boots, s, at)
  {
    hide CpldCapsule, GoodImage, Bitstream;
  }

  lemma CapsuleElsewhere(d: Device, s: Store, r: Store, at: nat)
    requires IsPage(s.page) && r.bmc == s.bmc && r.page == s.page
    ensures CpldCapsule(d, r, at) <==> CpldCapsule(d, s, at)
  {
    hide ValidAt, PayloadAt, IsCpldCapsule;
  }

  lemma VerdictParts(d: Device, u: Mem, m: Mem, at: nat)
    requires IsPage(u)
    ensures ValidAt(d, u, m, at) <==> HoldsPayload(m, at) && SignatureValid(d, u, PayloadAt(m, at))
  {
  }

  // ---------------------------------------------------------------- rewriting CFM1

  lemma RewrittenWhole(s: Store, img: Mem, top: nat)
    requires img != [] && |s.cfm1| == |img| && 0 < top <= |img|
    ensures Steps(s, RewriteCfm1(img), top) == s.(cfm1 := img)
  {
    hide *;
    RewritePrefix(s, img, 0, top);
    RewritePrefix(s, img, |img| + 2, top);
    assert RewriteCfm1(img)[..|img| + 2] == RewriteCfm1(img);
  }

  // ---------------------------------------------------------------- no step loses the last good copy

  lemma NoSteps(s: Store, t: seq<Step>, top: nat)
    ensures Steps(s, t[..0], top) == s && (t == [] ==> Steps(s, t, top) == s)
  {
    assert t[..0] == [];
  }

  lemma PostReconfigCases(d: Device, s: Store, staged: nat, top: nat)
    requires LaidOut(s, d, staged, top) && 288 + d.cpldImageWords <= AREA
    ensures staged + AREA <= |s.bmc| && Bitstream(s.bmc, staged, d.cpldImageWords) != []
    ensures var t := PostReconfig(d, s, staged, top); t == [] || t == RewriteCfm1(Bitstream(s.bmc, staged, d.cpldImageWords))
  {
    hide ValidAt, UfmSvn, RewriteCfm1;
  }

  lemma LaidOutParts(d: Device, s: Store, staged: nat, top: nat)
    requires LaidOut(s, d, staged, top)
    ensures IsPage(s.page) && |s.cfm1| == d.cpldImageWords >= 2 && 0 < top <= |s.cfm1|
    ensures RECOVERY + AREA <= |s.bmc| && staged + AREA <= RECOVERY
  {
  }

  // Rewriting CFM1 changes no capsule
  lemma RewriteSparesCapsule(d: Device, boots: Hardware, s: Store, at: nat, img: Mem, top: nat, k: nat)
    requires IsPage(s.page) && img != [] && |s.cfm1| == |img| && 0 < top <= |img| && k <= |RewriteCfm1(img)|
    ensures var r := Steps(s, RewriteCfm1(img)[..k], top); IsPage(r.page) && (GoodCapsule(d, boots, r, at) <==> GoodCapsule(d, boots, s, at))
  {
    hide *;
    var r := Steps(s, RewriteCfm1(img)[..k], top);
    RewritePrefix(s, img, k, top);
    SameBmcSameCapsule(d, boots, s, r, at);
  }

  // Once the first half of CFM1 is erased, it does not start
  lemma ErasedStops(boots: Hardware, s: Store, img: Mem, top: nat)
    requires ErasedNeverStarts(boots) && img != [] && |s.cfm1| == |img| && 0 < top <= |img|
    ensures |RewriteCfm1(img)| >= 1 && !Complete(boots, Steps(s, RewriteCfm1(img)[..1], top))
  {
    RewritePrefix(s, img, 1, top);
    var r := Steps(s, RewriteCfm1(img)[..1], top);
    hide Steps, RewriteCfm1;
    FirstErased(boots, r.cfm1);
  }

  lemma FirstErased(boots: Hardware, c: Mem)
    requires ErasedNeverStarts(boots) && c != [] && c[0] == ERASED
    ensures !Starts(boots, c)
  {
    if |c| >= 2 {
      assert c[..|c| - 1][0] == ERASED;
    }
  }

  // Power loss in the update leaves CFM1 as it was, with its first word erased, or complete
  lemma PostReconfigLeaves(d: Device, s: Store, staged: nat, top: nat, k: nat)
    requires LaidOut(s, d, staged, top) && 288 + d.cpldImageWords <= AREA && k <= |PostReconfig(d, s, staged, top)|
    ensures staged + AREA <= |s.bmc|
    ensures var t, img := PostReconfig(d, s, staged, top), Bitstream(s.bmc, staged, d.cpldImageWords);
            var r := Steps(s, t[..k], top);
            && r == s.(cfm1 := r.cfm1) && |r.cfm1| >= 2
            && if k == 0 then r.cfm1 == s.cfm1 else if k < |t| then r.cfm1[0] == ERASED else r.cfm1 == img
  {
    LaidOutParts(d, s, staged, top);
    var t, img := PostReconfig(d, s, staged, top), Bitstream(s.bmc, staged, d.cpldImageWords);
    assert t == [] || t == RewriteCfm1(img);
    hide *;
    NoSteps(s, t, top);
    if k > 0 {
      RewritePrefix(s, img, k, top);
    }
  }

  // ---------------------------------------------------------------- restoring the recovery capsule

  lemma RestoreTouches(m: Mem, staged: nat, op: Op, i: nat)
    requires HoldsPayload(m, staged) && op in RestoreTrace(m, staged) && Touches(op, i)
    requires |PayloadAt(m, staged)| % 4 == 0 && |PayloadAt(m, staged)| <= AREA
    requires SignedPayloadSize(m, staged) == 4 * |PayloadAt(m, staged)|
    ensures RECOVERY_PAGE <= i / 1024 < RECOVERY_PAGE + 256
  {
    var n, data := SignedPayloadSize(m, staged), PayloadAt(m, staged);
    PagesOfArea(n);
    assert op in EraseTrace(RECOVERY_PAGE, 0x10_0000) || op in MemcpyTrace(RECOVERY_PAGE, n, data);
    hide *;
    if op in EraseTrace(RECOVERY_PAGE, 0x10_0000) {
      EraseTouches(RECOVERY_PAGE, 0x10_0000, op, i);
    } else {
      TraceTouches(RECOVERY_PAGE, RECOVERY_PAGE + PagesUpTo(n), n, data, op, i);
    }
  }

  lemma PagesOfArea(n: nat)
    ensures PagesUpTo(0x10_0000) == 256 && (n <= 0x10_0000 ==> PagesUpTo(n) <= 256)
  {
  }

  // The 1MB of the recovery image as pages
  ghost predicate OutsideKept(r: Mem, m: Mem) { SameOutside(r, m, RECOVERY_PAGE, RECOVERY_PAGE + 256) }

  lemma RestoreOutside(m: Mem, staged: nat, k: nat)
    requires HoldsPayload(m, staged) && k <= |RestoreTrace(m, staged)|
    requires |PayloadAt(m, staged)| % 4 == 0 && |PayloadAt(m, staged)| <= AREA
    requires SignedPayloadSize(m, staged) == 4 * |PayloadAt(m, staged)|
    ensures OutsideKept(Run(m, RestoreTrace(m, staged)[..k]), m)
  {
    var t := RestoreTrace(m, staged);
    var cut := t[..k];
    assert forall op | op in cut :: op in t;
    hide RestoreTrace, Run, Touches, PayloadAt, SignedPayloadSize, HoldsPayload;
    forall i: nat | i < |m| && !(RECOVERY_PAGE <= i / 1024 < RECOVERY_PAGE + 256) ensures Run(m, cut)[i] == m[i] {
      forall op | op in cut ensures !Touches(op, i) {
        if Touches(op, i) {
          RestoreTouches(m, staged, op, i);
        }
      }
      RunFrame(m, cut, i);
    }
  }

  lemma BelowArea(r: Mem, m: Mem, at: nat, data: seq<Word>)
    requires OutsideKept(r, m) && WordsAt(m, at, data) && at + |data| <= RECOVERY
    ensures WordsAt(r, at, data)
  {
    assert forall i: nat | at <= i < at + |data| :: r[i] == m[i];
  }

  lemma StagedKept(d: Device, s: Store, r: Store, staged: nat)
    requires IsPage(s.page) && CpldCapsule(d, s, staged) && r.page == s.page && OutsideKept(r.bmc, s.bmc)
    requires staged + AREA <= RECOVERY && |r.bmc| == |s.bmc|
    ensures CpldCapsule(d, r, staged) && staged + AREA <= |s.bmc| && 288 + d.cpldImageWords <= AREA
    ensures Bitstream(r.bmc, staged, d.cpldImageWords) == Bitstream(s.bmc, staged, d.cpldImageWords)
  {
    hide *;
    CapsuleWords(d, s, staged);
    BelowArea(r.bmc, s.bmc, staged, PayloadAt(s.bmc, staged));
    CapsuleCopied(d, s, staged, r, staged);
  }

  // What a restore needs to know of the staged capsule
  lemma RestoreReady(d: Device, s: Store, staged: nat)
    requires IsPage(s.page) && CpldCapsule(d, s, staged) && staged + AREA <= RECOVERY && RECOVERY + AREA <= |s.bmc|
    ensures HoldsPayload(s.bmc, staged)
    ensures var n, data := SignedPayloadSize(s.bmc, staged), PayloadAt(s.bmc, staged);
            && n == 4 * |data| && |data| % 4 == 0 && n % 16 == 0 && |data| <= AREA && WordsAt(s.bmc, staged, data)
            && (forall m: Mem | |m| == |s.bmc| && WordsAt(m, staged, data) ::
                  CanCopy(m, RECOVERY_PAGE, RECOVERY_PAGE + PagesUpTo(n), staged, n, data))
  {
    CpldParts(d, s, staged);
    var n, data := SignedPayloadSize(s.bmc, staged), PayloadAt(s.bmc, staged);
    CapsuleWords(d, s, staged);
    AuthenticLength(d, s.page, s.bmc, staged);
    InWords(n, n / 4);
    FourFours(n, |data|);
    CoversCopy(RECOVERY_PAGE, RECOVERY_PAGE + PagesUpTo(n), n, |data|);
    hide ValidAt, SignatureValid, PayloadAt, IsCpldCapsule, CpldCapsule, HoldsPayload, PagesUpTo, SignedPayloadSize, WordsAt, Bitstream;
  }

  // Restoring puts the staged capsule into the recovery area
  lemma RestoreCompletes(d: Device, s: Store, staged: nat)
    requires IsPage(s.page) && CpldCapsule(d, s, staged) && staged + AREA <= RECOVERY && RECOVERY + AREA <= |s.bmc|
    ensures HoldsPayload(s.bmc, staged) && staged + AREA <= |s.bmc| && 288 + d.cpldImageWords <= AREA
    ensures var r := s.(bmc := Restored(s.bmc, staged));
            && CpldCapsule(d, r, RECOVERY)
            && Bitstream(r.bmc, RECOVERY, d.cpldImageWords) == Bitstream(s.bmc, staged, d.cpldImageWords)
  {
    assert staged + 1 < |s.bmc|;
    hide *;
    RestoreReady(d, s, staged);
    var n, data := SignedPayloadSize(s.bmc, staged), PayloadAt(s.bmc, staged);
    RestoredIs(s.bmc, staged, n, data);
    CapsuleCopied(d, s, staged, s.(bmc := Restored(s.bmc, staged)), RECOVERY);
  }

  lemma RestoredIs(m: Mem, staged: nat, n: nat, data: seq<Word>)
    requires HoldsPayload(m, staged) && n == SignedPayloadSize(m, staged) && data == PayloadAt(m, staged)
    requires WordsAt(m, staged, data) && staged + AREA <= RECOVERY && |data| <= AREA
    requires forall x: Mem | |x| == |m| && WordsAt(x, staged, data) ::
               CanCopy(x, RECOVERY_PAGE, RECOVERY_PAGE + PagesUpTo(n), staged, n, data)
    ensures WordsAt(Restored(m, staged), RECOVERY, data)
  {
    var erased := ErasePages(m, RECOVERY_PAGE, RECOVERY_PAGE + PagesUpTo(0x10_0000));
    EraseTraceIsExact(m, RECOVERY_PAGE, 0x10_0000);
    RunConcat(m, EraseTrace(RECOVERY_PAGE, 0x10_0000), MemcpyTrace(RECOVERY_PAGE, n, data));
    assert Restored(m, staged) == Run(erased, MemcpyTrace(RECOVERY_PAGE, n, data)) by {
      hide Run, EraseTrace, MemcpyTrace, ErasePages, PagesUpTo;
    }
    PagesOfArea(n);
    BelowErased(m, staged, data);
    hide Run, EraseTrace, MemcpyTrace, ErasePages, PagesUpTo, HoldsPayload, PayloadAt, SignedPayloadSize, CanCopy, WordsAt, Restored;
    CopyIsExact(erased, RECOVERY_PAGE, RECOVERY_PAGE + PagesUpTo(n), staged, n, data);
  }

  lemma BelowErased(m: Mem, at: nat, data: seq<Word>)
    requires WordsAt(m, at, data) && at + |data| <= RECOVERY
    ensures WordsAt(ErasePages(m, RECOVERY_PAGE, RECOVERY_PAGE + PagesUpTo(0x10_0000)), at, data)
  {
    ErasePagesApart(m, RECOVERY_PAGE, RECOVERY_PAGE + PagesUpTo(0x10_0000), at, |data|);
  }

  // ---------------------------------------------------------------- the recovery flow

  function StatusErased(s: Store): Store { s.(status := ERASED) }

  lemma EraseStatusStep(s: Store, top: nat)
    ensures Steps(s, [EraseStatus], top) == StatusErased(s)
  {
    OneStep(s, EraseStatus, top);
  }

  // Recovering from the recovery capsule, cut short after k steps, changes no capsule
  lemma FromRecoveryKeeps(d: Device, boots: Hardware, s: Store, at: nat, top: nat, img: Mem, k: nat)
    requires IsPage(s.page) && img != [] && |s.cfm1| == |img| && 0 < top <= |img|
    requires k <= |[EraseStatus] + RewriteCfm1(img)|
    ensures var r := Steps(s, ([EraseStatus] + RewriteCfm1(img))[..k], top);
            IsPage(r.page) && (GoodCapsule(d, boots, r, at) <==> GoodCapsule(d, boots, s, at))
  {
    hide *;
    SamePage(s, ([EraseStatus] + RewriteCfm1(img))[..k], top);
    var first := [EraseStatus];
    PhasePrefix(s, first, RewriteCfm1(img), k, top);
    EraseStatusStep(s, top);
    if k == 0 {
      NoSteps(s, first, top);
    } else {
      var s1 := StatusErased(s);
      StatusErasedIs(s);
      SameBmcSameCapsule(d, boots, s, s1, at);
      RewriteSparesCapsule(d, boots, s1, at, img, top, k - 1);
    }
  }

  lemma SamePage(s: Store, t: seq<Step>, top: nat)
    ensures IsPage(Steps(s, t, top).page) <==> IsPage(s.page)
  {
    hide Steps;
  }

  lemma StatusErasedIs(s: Store)
    ensures StatusErased(s) == s.(status := ERASED)
  {
  }

  // Restoring the recovery capsule from the staged one, cut short after k steps
  lemma RestoreSafe(d: Device, boots: Hardware, s: Store, staged: nat, top: nat, k: nat)
    requires IsPage(s.page) && GoodCapsule(d, boots, s, staged) && staged + AREA <= RECOVERY && RECOVERY + AREA <= |s.bmc|
    requires HoldsPayload(s.bmc, staged) && k <= |[EraseStatus] + OnBmc(RestoreTrace(s.bmc, staged))|
    ensures GoodCapsule(d, boots, Steps(s, ([EraseStatus] + OnBmc(RestoreTrace(s.bmc, staged)))[..k], top), staged)
  {
    hide *;
    var first, ops := [EraseStatus], RestoreTrace(s.bmc, staged);
    if k == 0 {
      NoSteps(s, first + OnBmc(ops), top);
    } else {
      GoodIsCpld(d, boots, s, staged);
      RestoreReady(d, s, staged);
      PhasePrefix(s, first, OnBmc(ops), k, top);
      EraseStatusStep(s, top);
      StatusErasedIs(s);
      OnBmcPrefix(ops, k - 1);
      BmcSteps(StatusErased(s), ops[..k - 1], top);
      RestoreOutside(s.bmc, staged, k - 1);
      var r := StatusErased(s).(bmc := Run(s.bmc, ops[..k - 1]));
      StagedKept(d, s, r, staged);
      CopiedGood(d, boots, s, staged, r, staged);
    }
  }

  lemma RestoreEnds(s: Store, staged: nat, top: nat)
    requires HoldsPayload(s.bmc, staged)
    ensures Steps(s, [EraseStatus] + OnBmc(RestoreTrace(s.bmc, staged)), top)
         == s.(status := ERASED, bmc := Restored(s.bmc, staged))
  {
    hide *;
    RestoredRun(s.bmc, staged);
    StatusErasedIs(s);
    EraseStatusStep(s, top);
    StepsConcat(s, [EraseStatus], OnBmc(RestoreTrace(s.bmc, staged)), top);
    BmcSteps(StatusErased(s), RestoreTrace(s.bmc, staged), top);
  }

  lemma RestoredRun(m: Mem, staged: nat)
    requires HoldsPayload(m, staged)
    ensures Restored(m, staged) == Run(m, RestoreTrace(m, staged))
  {
  }

  lemma RecoveryCases(d: Device, s: Store, staged: nat, top: nat)
    requires LaidOut(s, d, staged, top) && 288 + d.cpldImageWords <= AREA
    ensures RECOVERY + AREA <= |s.bmc| && staged + AREA <= RECOVERY
    ensures var plan := RecoveryPlan(d, s, staged, top);
            if ValidAt(d, s.page, s.bmc, RECOVERY) then
              plan == Recover([EraseStatus] + RewriteCfm1(Bitstream(s.bmc, RECOVERY, d.cpldImageWords)))
            else if ValidAt(d, s.page, s.bmc, staged) then
              && HoldsPayload(s.bmc, staged)
              && plan == Recover([EraseStatus] + OnBmc(RestoreTrace(s.bmc, staged))
                                 + RewriteCfm1(Bitstream(Restored(s.bmc, staged), RECOVERY, d.cpldImageWords)))
            else plan == WaitForBmc([EraseStatus])
  {
    hide SignatureValid, RewriteCfm1, RestoreTrace, Restored, Bitstream, SignedPayloadSize;
  }

  // Recovering with the staged capsule, cut short after k steps
  lemma FromStagedSafe(d: Device, boots: Hardware, s: Store, staged: nat, top: nat, k: nat)
    requires IsPage(s.page) && |s.cfm1| == d.cpldImageWords >= 2 && 0 < top <= |s.cfm1|
    requires RECOVERY + AREA <= |s.bmc| && staged + AREA <= RECOVERY && 288 + d.cpldImageWords <= AREA
    requires GoodCapsule(d, boots, s, staged) && HoldsPayload(s.bmc, staged)
    requires var a, img := [EraseStatus] + OnBmc(RestoreTrace(s.bmc, staged)), Bitstream(Restored(s.bmc, staged), RECOVERY, d.cpldImageWords);
             k <= |a + RewriteCfm1(img)|
    ensures var a, img := [EraseStatus] + OnBmc(RestoreTrace(s.bmc, staged)), Bitstream(Restored(s.bmc, staged), RECOVERY, d.cpldImageWords);
            var r := Steps(s, (a + RewriteCfm1(img))[..k], top);
            GoodCapsule(d, boots, r, staged) || GoodCapsule(d, boots, r, RECOVERY)
  {
    hide *;
    assert |Restored(s.bmc, staged)| == |s.bmc|;
    var a, img := [EraseStatus] + OnBmc(RestoreTrace(s.bmc, staged)), Bitstream(Restored(s.bmc, staged), RECOVERY, d.cpldImageWords);
    PhasePrefix(s, a, RewriteCfm1(img), k, top);
    if k <= |a| {
      RestoreSafe(d, boots, s, staged, top, k);
    } else {
      RestoreEnds(s, staged, top);
      GoodIsCpld(d, boots, s, staged);
      RestoreCompletes(d, s, staged);
      var s2 := s.(status := ERASED, bmc := Restored(s.bmc, staged));
      CapsuleElsewhere(d, s.(bmc := Restored(s.bmc, staged)), s2, RECOVERY);
      CopiedGood(d, boots, s, staged, s2, RECOVERY);
      RewriteSparesCapsule(d, boots, s2, RECOVERY, img, top, k - |a|);
    }
  }

  lemma WaitSafe(d: Device, boots: Hardware, s: Store, staged: nat, top: nat, k: nat)
    requires IsPage(s.page) && HasGoodCopy(d, boots, s, staged) && k <= 1
    ensures HasGoodCopy(d, boots, Steps(s, [EraseStatus][..k], top), staged)
  {
    EraseStatusStep(s, top);
    NoSteps(s, [EraseStatus], top);
    assert k == 1 ==> [EraseStatus][..k] == [EraseStatus];
    hide ValidAt, Steps, GoodImage, IsCpldCapsule, PayloadAt, Bitstream;
  }

  // The image a recovery writes to CFM1
  function RecoveredImage(d: Device, s: Store, staged: nat): (r: Mem)
    requires IsPage(s.page) && RECOVERY + AREA <= |s.bmc| && 288 + d.cpldImageWords <= AREA
    ensures |r| == d.cpldImageWords
  {
    if !ValidAt(d, s.page, s.bmc, RECOVERY) && ValidAt(d, s.page, s.bmc, staged) then
      Bitstream(Restored(s.bmc, staged), RECOVERY, d.cpldImageWords)
    else Bitstream(s.bmc, RECOVERY, d.cpldImageWords)
  }

  // A recovery that is not cut short ends with an image in CFM1 that starts exactly when the image of the
  // capsule it went by does; it comes that far exactly when one of the two capsules authenticates
  lemma RecoveryCompletesIff(d: Device, boots: Hardware, s: Store, staged: nat, top: nat)
    requires LaidOut(s, d, staged, top) && 288 + d.cpldImageWords <= AREA
    ensures IsPage(s.page) && RECOVERY + AREA <= |s.bmc|
    ensures var plan := RecoveryPlan(d, s, staged, top);
            && (plan.Recover? <==> ValidAt(d, s.page, s.bmc, RECOVERY) || ValidAt(d, s.page, s.bmc, staged))
            && (plan.Recover? ==> (Complete(boots, Steps(s, plan.steps, top)) <==> Starts(boots, RecoveredImage(d, s, staged))))
  {
    LaidOutParts(d, s, staged, top);
    RecoveryCases(d, s, staged, top);
    RecoveredImageIs(d, s, staged);
    hide *;
    var plan, img := RecoveryPlan(d, s, staged, top), RecoveredImage(d, s, staged);
    if plan.Recover? {
      var a := if ValidAt(d, s.page, s.bmc, RECOVERY) then [EraseStatus] else [EraseStatus] + OnBmc(RestoreTrace(s.bmc, staged));
      StepsConcat(s, a, RewriteCfm1(img), top);
      SameImageSize(s, a, top);
      RewrittenWhole(Steps(s, a, top), img, top);
      CompleteWith(boots, Steps(s, a, top), img);
    }
  }

  lemma RecoveredImageIs(d: Device, s: Store, staged: nat)
    requires IsPage(s.page) && RECOVERY + AREA <= |s.bmc| && 288 + d.cpldImageWords <= AREA
    ensures RecoveredImage(d, s, staged)
         == if !ValidAt(d, s.page, s.bmc, RECOVERY) && ValidAt(d, s.page, s.bmc, staged) then
              Bitstream(Restored(s.bmc, staged), RECOVERY, d.cpldImageWords)
            else Bitstream(s.bmc, RECOVERY, d.cpldImageWords)
    ensures ValidAt(d, s.page, s.bmc, staged) ==> HoldsPayload(s.bmc, staged)
  {
    hide SignatureValid, Restored, Bitstream, SignedPayloadSize;
  }

  lemma SameImageSize(s: Store, t: seq<Step>, top: nat)
    ensures |Steps(s, t, top).cfm1| == |s.cfm1|
  {
    hide Steps;
  }

  lemma CompleteWith(boots: Hardware, s: Store, img: Mem)
    ensures Complete(boots, s.(cfm1 := img)) <==> Starts(boots, img)
  {
    hide Starts;
  }

  // ---------------------------------------------------------------- the active image's own steps

  lemma TriggerKeeps(boots: Hardware, s: Store, recovery: bool, top: nat, k: nat)
    requires |s.cfm1| >= 2 && k <= |Trigger(|s.cfm1|, recovery)|
    ensures var r := Steps(s, Trigger(|s.cfm1|, recovery)[..k], top);
            && (Complete(boots, r) <==> Complete(boots, s)) && r.bmc == s.bmc && r.page == s.page
            && (k == |Trigger(|s.cfm1|, recovery)| ==> r.cfm1[|r.cfm1| - 1] == 0 && (recovery ==> r.status == 0))
  {
    var n, t := |s.cfm1|, Trigger(|s.cfm1|, recovery);
    ZeroCell(s.cfm1[n - 1]);
    ZeroCell(s.status);
    hide Nor;
    if k == 0 {
      NoSteps(s, t, top);
    } else if k == 1 {
      assert t[..1] == [t[0]];
      OneStep(s, t[0], top);
    } else {
      assert t[..2] == [ClearStatus, Cfm(n - 1, 0)];
      TwoSteps(s, ClearStatus, Cfm(n - 1, 0), top);
    }
    var r := Steps(s, t[..k], top);
    assert r.cfm1[..n - 1] == s.cfm1[..n - 1];
  }

  lemma ZeroCell(w: Word)
    ensures Nor(w, 0) == 0
  {
  }

  // Promotion does not touch CFM1
  lemma {:induction false} CfmUntouched(s: Store, t: seq<Step>, top: nat)
    requires forall e | e in t :: e.Bmc? || e.Page? || e.EraseStatus?
    ensures Steps(s, t, top).cfm1 == s.cfm1
    decreases |t|
  {
    if t != [] {
      CfmUntouched(ApplyStep(s, t[0], top), t[1..], top);
    }
  }

  lemma PromoteOps(s: Store, staged: nat, k: nat)
    requires IsPage(s.page) && staged + AREA <= |s.bmc| && k <= |Promote(s, staged)|
    ensures forall e | e in Promote(s, staged)[..k] :: e.Bmc? || e.Page? || e.EraseStatus?
  {
    hide SvnWrites, PromoteTrace;
  }

  lemma PromoteKeeps(boots: Hardware, s: Store, staged: nat, top: nat, k: nat)
    requires IsPage(s.page) && staged + AREA <= |s.bmc| && k <= |Promote(s, staged)|
    ensures Complete(boots, Steps(s, Promote(s, staged)[..k], top)) <==> Complete(boots, s)
  {
    hide *;
    PromoteOps(s, staged, k);
    CfmUntouched(s, Promote(s, staged)[..k], top);
    SameImage(boots, s, Steps(s, Promote(s, staged)[..k], top));
  }

  lemma SameImage(boots: Hardware, s: Store, r: Store)
    requires r.cfm1 == s.cfm1
    ensures Complete(boots, r) <==> Complete(boots, s)
  {
  }

  // ---------------------------------------------------------------- recovery_main

  datatype Reason = PowerUpOrSwitchToCfm0 | Failure

  predicate Breadcrumb(s: Store)
    requires s.cfm1 != []
  {
    s.cfm1[|s.cfm1| - 1] == 0
  }

  // One run of the ROM image: what it writes before it switches to CFM1 or waits
  function RomPlan(d: Device, s: Store, staged: nat, top: nat, reason: Reason): Plan
    requires LaidOut(s, d, staged, top) && 288 + d.cpldImageWords <= AREA
  {
    if reason.PowerUpOrSwitchToCfm0? then
      if !Breadcrumb(s) then Recover([]) else Recover(PostReconfig(d, s, staged, top))
    else RecoveryPlan(d, s, staged, top)
  }

  lemma RomCases(d: Device, s: Store, staged: nat, top: nat, reason: Reason)
    requires LaidOut(s, d, staged, top) && 288 + d.cpldImageWords <= AREA
    ensures var plan := RomPlan(d, s, staged, top, reason);
            if reason.PowerUpOrSwitchToCfm0? then plan == Recover([]) || plan == Recover(PostReconfig(d, s, staged, top))
            else plan == RecoveryPlan(d, s, staged, top)
  {
    hide PostReconfig, RecoveryPlan;
  }

  // ---------------------------------------------------------------- when a pass keeps the last good copy

  // One pass of the ROM image writes nothing, or leaves a good capsule alone, or restores the recovery
  // capsule from a good one. The code itself goes by signatures only.
  predicate SafePass(d: Device, boots: Hardware, s: Store, staged: nat, top: nat, reason: Reason)
    requires LaidOut(s, d, staged, top) && 288 + d.cpldImageWords <= AREA
  {
    if reason.PowerUpOrSwitchToCfm0? then
      || RomPlan(d, s, staged, top, reason).steps == []
      || GoodCapsule(d, boots, s, staged) || GoodCapsule(d, boots, s, RECOVERY)
    else if ValidAt(d, s.page, s.bmc, RECOVERY) then GoodCapsule(d, boots, s, RECOVERY) || GoodCapsule(d, boots, s, staged)
    else ValidAt(d, s.page, s.bmc, staged) ==> GoodCapsule(d, boots, s, staged)
  }

  // Cut short anywhere, such a pass keeps a good copy
  lemma SafePassKeeps(d: Device, boots: Hardware, s: Store, staged: nat, top: nat, reason: Reason, k: nat)
    requires LaidOut(s, d, staged, top) && 288 + d.cpldImageWords <= AREA && SafePass(d, boots, s, staged, top, reason)
    requires HasGoodCopy(d, boots, s, staged) && k <= |RomPlan(d, s, staged, top, reason).steps|
    ensures HasGoodCopy(d, boots, Steps(s, RomPlan(d, s, staged, top, reason).steps[..k], top), staged)
  {
    LaidOutParts(d, s, staged, top);
    PassCases(d, boots, s, staged, top, reason);
    hide *;
    var t := RomPlan(d, s, staged, top, reason).steps;
    var r := Steps(s, t[..k], top);
    SamePage(s, t[..k], top);
    if t == [] {
      NoSteps(s, t, top);
      assert t[..k] == t[..0];
    } else if reason.PowerUpOrSwitchToCfm0? {
      var img := Bitstream(s.bmc, staged, d.cpldImageWords);
      RewriteSparesCapsule(d, boots, s, staged, img, top, k);
      RewriteSparesCapsule(d, boots, s, RECOVERY, img, top, k);
      WithEitherCapsule(d, boots, r, staged);
    } else if ValidAt(d, s.page, s.bmc, RECOVERY) {
      var img := Bitstream(s.bmc, RECOVERY, d.cpldImageWords);
      FromRecoveryKeeps(d, boots, s, staged, top, img, k);
      FromRecoveryKeeps(d, boots, s, RECOVERY, top, img, k);
      WithEitherCapsule(d, boots, r, staged);
    } else if ValidAt(d, s.page, s.bmc, staged) {
      FromStagedSafe(d, boots, s, staged, top, k);
      WithEitherCapsule(d, boots, r, staged);
    } else {
      WaitSafe(d, boots, s, staged, top, k);
    }
  }

  lemma WithEitherCapsule(d: Device, boots: Hardware, s: Store, staged: nat)
    requires IsPage(s.page) && (GoodCapsule(d, boots, s, staged) || GoodCapsule(d, boots, s, RECOVERY))
    ensures HasGoodCopy(d, boots, s, staged)
  {
    hide GoodCapsule, Complete;
  }

  lemma PassCases(d: Device, boots: Hardware, s: Store, staged: nat, top: nat, reason: Reason)
    requires LaidOut(s, d, staged, top) && 288 + d.cpldImageWords <= AREA
    ensures IsPage(s.page) && staged + AREA <= |s.bmc| && RECOVERY + AREA <= |s.bmc|
    ensures Bitstream(s.bmc, staged, d.cpldImageWords) != [] && Bitstream(s.bmc, RECOVERY, d.cpldImageWords) != []
    ensures var t := RomPlan(d, s, staged, top, reason).steps;
            var good := GoodCapsule(d, boots, s, staged) || GoodCapsule(d, boots, s, RECOVERY);
            if reason.PowerUpOrSwitchToCfm0? then
              && (t == [] || t == RewriteCfm1(Bitstream(s.bmc, staged, d.cpldImageWords)))
              && (SafePass(d, boots, s, staged, top, reason) <==> t == [] || good)
            else if ValidAt(d, s.page, s.bmc, RECOVERY) then
              && t == [EraseStatus] + RewriteCfm1(Bitstream(s.bmc, RECOVERY, d.cpldImageWords))
              && (SafePass(d, boots, s, staged, top, reason) <==> good)
            else if ValidAt(d, s.page, s.bmc, staged) then
              && HoldsPayload(s.bmc, staged)
              && t == [EraseStatus] + OnBmc(RestoreTrace(s.bmc, staged))
                      + RewriteCfm1(Bitstream(Restored(s.bmc, staged), RECOVERY, d.cpldImageWords))
              && (SafePass(d, boots, s, staged, top, reason) <==> GoodCapsule(d, boots, s, staged))
            else t == [EraseStatus] && SafePass(d, boots, s, staged, top, reason)
  {
    RomCases(d, s, staged, top, reason);
    PostReconfigCases(d, s, staged, top);
    RecoveryCases(d, s, staged, top);
    hide RomPlan, PostReconfig, RecoveryPlan, ValidAt, GoodCapsule, RewriteCfm1, RestoreTrace, Restored, Steps, OnBmc, HoldsPayload;
  }

  // The type word tells a CPLD update capsule from every other payload
  predicate CpldType(w: Word) { w & 0x3FF == 0 }

  lemma TypeOfCapsule(s: seq<Word>)
    requires HasSignature(s)
    ensures IsCpldCapsule(s) <==> CpldType(s[2])
  {
    LowBits(s[2]);
  }

  lemma LowBits(w: Word)
    ensures CpldType(w) <==> w & 0xFF == 0 && w & 0x100 == 0 && w & 0x200 == 0
  {
  }

  // A good capsule has that type word
  lemma GoodType(d: Device, boots: Hardware, s: Store, at: nat)
    requires IsPage(s.page) && GoodCapsule(d, boots, s, at)
    ensures at + 2 < |s.bmc| && CpldType(s.bmc[at + 2])
  {
    GoodIsCpld(d, boots, s, at);
    CpldParts(d, s, at);
    TypeAt(s.bmc, at);
    hide GoodCapsule, CpldCapsule, ValidAt, SignatureValid, PayloadAt, IsCpldCapsule, CpldType, HoldsPayload;
  }

  // What a restore from a payload of any length leaves of the type words
  lemma RestoredTypes(m: Mem, staged: nat)
    requires HoldsPayload(m, staged) && |PayloadAt(m, staged)| % 4 == 0 && |PayloadAt(m, staged)| > 256
    requires RECOVERY + AREA <= |m| && staged + AREA <= RECOVERY
    ensures var r := Restored(m, staged);
            staged + 2 < |m| && RECOVERY + 2 < |m| && r[staged + 2] == m[staged + 2] && r[RECOVERY + 2] == m[staged + 2]
  {
    assert staged + 2 < RECOVERY == 1024 * RECOVERY_PAGE && RECOVERY + 3 <= |m|;
    hide *;
    PayloadHead(m, staged);
    var n, data := SignedPayloadSize(m, staged), PayloadAt(m, staged);
    var erased := ErasePages(m, RECOVERY_PAGE, RECOVERY_PAGE + PagesUpTo(0x10_0000));
    EraseTraceIsExact(m, RECOVERY_PAGE, 0x10_0000);
    RestoredInSteps(m, staged, erased);
    BelowErasedWord(m, staged + 2);
    MemcpyHead(erased, RECOVERY_PAGE, n, data, staged + 2);
  }

  lemma PayloadHead(m: Mem, at: nat)
    requires HoldsPayload(m, at) && |PayloadAt(m, at)| > 256
    ensures at + 2 < |m| && PayloadAt(m, at)[2] == m[at + 2] && SignedPayloadSize(m, at) >= 1024
  {
    AtItsPlace(m, at);
  }

  lemma BelowErasedWord(m: Mem, i: nat)
    requires i < RECOVERY <= |m|
    ensures ErasePages(m, RECOVERY_PAGE, RECOVERY_PAGE + PagesUpTo(0x10_0000))[i] == m[i]
  {
  }

  lemma RestoredInSteps(m: Mem, staged: nat, erased: Mem)
    requires HoldsPayload(m, staged) && erased == Run(m, EraseTrace(RECOVERY_PAGE, 0x10_0000))
    ensures Restored(m, staged) == Run(erased, MemcpyTrace(RECOVERY_PAGE, SignedPayloadSize(m, staged), PayloadAt(m, staged)))
  {
    RunConcat(m, EraseTrace(RECOVERY_PAGE, 0x10_0000), MemcpyTrace(RECOVERY_PAGE, SignedPayloadSize(m, staged), PayloadAt(m, staged)));
    hide Run, EraseTrace, MemcpyTrace;
  }

  // The third word of a copy, and a word below the copy, however long the copy is
  lemma MemcpyHead(m: Mem, page: nat, n: nat, data: seq<Word>, i: nat)
    requires |data| % 4 == 0 && |data| > 256 && n >= 1024 && 1024 * page + 3 <= |m| && i < 1024 * page
    ensures var r := Run(m, MemcpyTrace(page, n, data)); r[1024 * page + 2] == data[2] && r[i] == m[i]
  {
    hide Run, EraseTrace, QuarterOps, CopyOps, ErasePages, Programmed;
    var at, hi := 1024 * page, page + PagesUpTo(n);
    assert QuarterOps(at, data, 0) == CopyOps(at, data) by {
      QuartersTile(at, data, 0);
      assert data[0..] == data;
    }
    RunConcat(m, EraseTrace(page, n), CopyOps(at, data));
    EraseTraceIsExact(m, page, n);
    var erased := ErasePages(m, page, hi);
    assert erased[at + 2] == ERASED && erased[i] == m[i] by { ErasedHead(m, page, hi, i); }
    CopiedHead(erased, at, data, i);
  }

  lemma ErasedHead(m: Mem, page: nat, hi: nat, i: nat)
    requires page < hi && 1024 * page + 3 <= |m| && i < 1024 * page
    ensures ErasePages(m, page, hi)[1024 * page + 2] == ERASED && ErasePages(m, page, hi)[i] == m[i]
  {
  }

  lemma CopiedHead(m: Mem, at: nat, data: seq<Word>, i: nat)
    requires |data| > 256 && at + 3 <= |m| && i < at && m[at + 2] == ERASED
    ensures var r := Run(m, CopyOps(at, data)); r[at + 2] == data[2] && r[i] == m[i]
  {
    hide *;
    var head, rest := data[..3], data[3..];
    CopyOpsSplit(at, data, 3);
    RunConcat(m, CopyOps(at, head), CopyOps(at + 3, rest));
    CopyOpsProgram(m, at, head);
    ThirdWord(m, at, data, i);
    var next := Programmed(m, at, head);
    CopyStaysAbove(at + 3, rest, at + 2);
    CopyStaysAbove(at + 3, rest, i);
    RunFrame(next, CopyOps(at + 3, rest), at + 2);
    RunFrame(next, CopyOps(at + 3, rest), i);
  }

  lemma ThirdWord(m: Mem, at: nat, data: seq<Word>, i: nat)
    requires |data| > 256 && at + 3 <= |m| && i < at && m[at + 2] == ERASED
    ensures Programmed(m, at, data[..3])[at + 2] == data[2] && Programmed(m, at, data[..3])[i] == m[i]
  {
    ErasedTakesAnyWord(data[2]);
    hide Nor;
  }

  lemma CopyStaysAbove(at: nat, data: seq<Word>, i: nat)
    requires i < at
    ensures forall op | op in CopyOps(at, data) :: !Touches(op, i)
  {
  }

  // Otherwise some cut loses the last good copy: without a good capsule to go by, the pass takes away CFM1
  lemma UnsafePassLoses(d: Device, boots: Hardware, s: Store, staged: nat, top: nat, reason: Reason) returns (k: nat)
    requires LaidOut(s, d, staged, top) && 288 + d.cpldImageWords <= AREA && !SafePass(d, boots, s, staged, top, reason)
    requires ErasedNeverStarts(boots)
    ensures k <= |RomPlan(d, s, staged, top, reason).steps| && IsPage(s.page)
    ensures !HasGoodCopy(d, boots, Steps(s, RomPlan(d, s, staged, top, reason).steps[..k], top), staged)
  {
    LaidOutParts(d, s, staged, top);
    PassCases(d, boots, s, staged, top, reason);
    hide *;
    var t := RomPlan(d, s, staged, top, reason).steps;
    if reason.PowerUpOrSwitchToCfm0? {
      k := 1;
      var img := Bitstream(s.bmc, staged, d.cpldImageWords);
      ErasedStops(boots, s, img, top);
      RewriteSparesCapsule(d, boots, s, staged, img, top, 1);
      RewriteSparesCapsule(d, boots, s, RECOVERY, img, top, 1);
    } else if ValidAt(d, s.page, s.bmc, RECOVERY) {
      k := 2;
      var img := Bitstream(s.bmc, RECOVERY, d.cpldImageWords);
      PhasePrefix(s, [EraseStatus], RewriteCfm1(img), 2, top);
      EraseStatusStep(s, top);
      StatusErasedIs(s);
      ErasedStops(boots, StatusErased(s), img, top);
      FromRecoveryKeeps(d, boots, s, staged, top, img, 2);
      FromRecoveryKeeps(d, boots, s, RECOVERY, top, img, 2);
    } else {
      var a, img := [EraseStatus] + OnBmc(RestoreTrace(s.bmc, staged)), Bitstream(Restored(s.bmc, staged), RECOVERY, d.cpldImageWords);
      k := |a| + 1;
      ErasedStops(boots, Steps(s, a, top), img, top);
      PhasePrefix(s, a, RewriteCfm1(img), k, top);
      RestoreEnds(s, staged, top);
      var s2 := s.(status := ERASED, bmc := Restored(s.bmc, staged));
      RestoredStaysBad(d, boots, s, staged, s2);
      RewriteSparesCapsule(d, boots, s2, staged, img, top, 1);
      RewriteSparesCapsule(d, boots, s2, RECOVERY, img, top, 1);
    }
    WithoutAny(d, boots, Steps(s, t[..k], top), staged);
  }

  lemma WithoutAny(d: Device, boots: Hardware, s: Store, staged: nat)
    requires IsPage(s.page) && !Complete(boots, s) && !GoodCapsule(d, boots, s, staged) && !GoodCapsule(d, boots, s, RECOVERY)
    ensures !HasGoodCopy(d, boots, s, staged)
  {
    hide GoodCapsule, Complete;
  }

  // Restoring from an authentic payload that is no good capsule gives none
  lemma RestoredStaysBad(d: Device, boots: Hardware, s: Store, staged: nat, r: Store)
    requires IsPage(s.page) && ValidAt(d, s.page, s.bmc, staged) && HoldsPayload(s.bmc, staged) && !GoodCapsule(d, boots, s, staged)
    requires RECOVERY + AREA <= |s.bmc| && staged + AREA <= RECOVERY && 288 + d.cpldImageWords <= AREA
    requires r == s.(status := ERASED, bmc := Restored(s.bmc, staged))
    ensures IsPage(r.page) && !GoodCapsule(d, boots, r, staged) && !GoodCapsule(d, boots, r, RECOVERY)
  {
    VerdictParts(d, s.page, s.bmc, staged);
    hide *;
    var p := PayloadAt(s.bmc, staged);
    AuthenticLength(d, s.page, s.bmc, staged);
    LongEnough(d, s.page, s.bmc, staged);
    RestoredTypes(s.bmc, staged);
    TypeAt(s.bmc, staged);
    if IsCpldCapsule(p) {
      CpldParts(d, s, staged);
      RestoredSameImage(d, boots, s, staged, r);
    } else {
      if GoodCapsule(d, boots, r, staged) {
        GoodType(d, boots, r, staged);
      }
      if GoodCapsule(d, boots, r, RECOVERY) {
        GoodType(d, boots, r, RECOVERY);
      }
    }
  }

  lemma LongEnough(d: Device, u: Mem, m: Mem, at: nat)
    requires IsPage(u) && ValidAt(d, u, m, at) && HoldsPayload(m, at)
    requires SignedPayloadSize(m, at) % 128 == 0 && SignedPayloadSize(m, at) >= 1152
    ensures |PayloadAt(m, at)| % 4 == 0 && |PayloadAt(m, at)| > 256
  {
    PayloadLength(m, at);
    InWords(SignedPayloadSize(m, at), |PayloadAt(m, at)|);
    FourFours(SignedPayloadSize(m, at), |PayloadAt(m, at)|);
    hide ValidAt, HoldsPayload, PayloadAt, SignedPayloadSize, PcLength;
  }

  lemma TypeAt(m: Mem, at: nat)
    requires HoldsPayload(m, at)
    ensures at + 2 < |m| && HasSignature(PayloadAt(m, at)) && (IsCpldCapsule(PayloadAt(m, at)) <==> CpldType(m[at + 2]))
  {
    var p := PayloadAt(m, at);
    AtItsPlace(m, at);
    TypeOfCapsule(p);
    assert p[2] == m[at + 2];
    hide PayloadAt, IsCpldCapsule, CpldType, SignedPayloadSize;
  }

  lemma RestoredSameImage(d: Device, boots: Hardware, s: Store, staged: nat, r: Store)
    requires IsPage(s.page) && CpldCapsule(d, s, staged) && HoldsPayload(s.bmc, staged)
    requires RECOVERY + AREA <= |s.bmc| && staged + AREA <= RECOVERY
    requires r == s.(status := ERASED, bmc := Restored(s.bmc, staged))
    ensures GoodCapsule(d, boots, r, staged) <==> GoodCapsule(d, boots, s, staged)
    ensures GoodCapsule(d, boots, r, RECOVERY) <==> GoodCapsule(d, boots, s, staged)
  {
    hide *;
    RestoreCompletes(d, s, staged);
    RestoreReady(d, s, staged);
    RestoredKeepsStaged(s.bmc, staged);
    StagedKept(d, s, r, staged);
    CopiedGood(d, boots, s, staged, r, staged);
    CapsuleElsewhere(d, s.(bmc := Restored(s.bmc, staged)), r, RECOVERY);
    CopiedGood(d, boots, s, staged, r, RECOVERY);
  }

  lemma RestoredKeepsStaged(m: Mem, staged: nat)
    requires HoldsPayload(m, staged)
    requires |PayloadAt(m, staged)| % 4 == 0 && |PayloadAt(m, staged)| <= AREA
    requires SignedPayloadSize(m, staged) == 4 * |PayloadAt(m, staged)|
    ensures OutsideKept(Restored(m, staged), m)
  {
    hide *;
    var t := RestoreTrace(m, staged);
    RestoredRun(m, staged);
    RestoreOutside(m, staged, |t|);
    assert t[..|t|] == t;
  }

  // The code does not look at the type of what it finds signed. So a pass keeps the last good copy, cut
  // short anywhere, exactly when it is one of those above
  lemma PassKeepsGoodCopyIff(d: Device, boots: Hardware, s: Store, staged: nat, top: nat, reason: Reason)
    requires LaidOut(s, d, staged, top) && 288 + d.cpldImageWords <= AREA && ErasedNeverStarts(boots)
    requires HasGoodCopy(d, boots, s, staged)
    ensures SafePass(d, boots, s, staged, top, reason)
       <==> forall k: nat | k <= |RomPlan(d, s, staged, top, reason).steps| ::
              KeepsAt(d, boots, s, staged, top, RomPlan(d, s, staged, top, reason).steps, k)
  {
    LaidOutParts(d, s, staged, top);
    hide *;
    var t := RomPlan(d, s, staged, top, reason).steps;
    if SafePass(d, boots, s, staged, top, reason) {
      forall k: nat | k <= |t| ensures KeepsAt(d, boots, s, staged, top, t, k) {
        SafePassKeeps(d, boots, s, staged, top, reason, k);
        KeptAt(d, boots, s, staged, top, t, k);
      }
    } else {
      var k := UnsafePassLoses(d, boots, s, staged, top, reason);
      KeptAt(d, boots, s, staged, top, t, k);
    }
  }

  ghost predicate KeepsAt(d: Device, boots: Hardware, s: Store, staged: nat, top: nat, t: seq<Step>, k: nat)
    requires k <= |t|
  {
    var r := Steps(s, t[..k], top);
    IsPage(r.page) && HasGoodCopy(d, boots, r, staged)
  }

  lemma KeptAt(d: Device, boots: Hardware, s: Store, staged: nat, top: nat, t: seq<Step>, k: nat)
    requires k <= |t| && IsPage(s.page)
    ensures IsPage(Steps(s, t[..k], top).page)
    ensures KeepsAt(d, boots, s, staged, top, t, k) <==> HasGoodCopy(d, boots, Steps(s, t[..k], top), staged)
  {
    SamePage(s, t[..k], top);
    hide Steps, HasGoodCopy;
  }

  // A payload of another type at the place of the staged capsule, as authentic as any, takes away the last
  // good copy: the first command of the update that the breadcrumb asks for erases CFM1
  lemma OtherTypeLosesLastCopy(d: Device, boots: Hardware, s: Store, staged: nat, top: nat)
    requires LaidOut(s, d, staged, top) && 288 + d.cpldImageWords <= AREA && ErasedNeverStarts(boots)
    requires Breadcrumb(s) && ValidAt(d, s.page, s.bmc, staged) && Svn(s.bmc, staged) >= UfmSvn(s.page, CpldPolicy)
    requires !CpldType(s.bmc[staged + 2]) && !ValidAt(d, s.page, s.bmc, RECOVERY)
    ensures IsPage(s.page)
    ensures var t := RomPlan(d, s, staged, top, PowerUpOrSwitchToCfm0).steps;
            t != [] && !HasGoodCopy(d, boots, Steps(s, t[..1], top), staged)
  {
    LaidOutParts(d, s, staged, top);
    PassCases(d, boots, s, staged, top, PowerUpOrSwitchToCfm0);
    BreadcrumbUpdates(d, s, staged, top);
    OtherTypeIsBad(d, boots, s, staged);
    hide *;
    var img := Bitstream(s.bmc, staged, d.cpldImageWords);
    ErasedStops(boots, s, img, top);
    RewriteSparesCapsule(d, boots, s, staged, img, top, 1);
    RewriteSparesCapsule(d, boots, s, RECOVERY, img, top, 1);
    WithoutAny(d, boots, Steps(s, RewriteCfm1(img)[..1], top), staged);
  }

  lemma BreadcrumbUpdates(d: Device, s: Store, staged: nat, top: nat)
    requires LaidOut(s, d, staged, top) && 288 + d.cpldImageWords <= AREA
    requires Breadcrumb(s) && ValidAt(d, s.page, s.bmc, staged) && Svn(s.bmc, staged) >= UfmSvn(s.page, CpldPolicy)
    ensures RomPlan(d, s, staged, top, PowerUpOrSwitchToCfm0).steps != []
  {
    hide ValidAt, UfmSvn, Bitstream;
  }

  lemma OtherTypeIsBad(d: Device, boots: Hardware, s: Store, staged: nat)
    requires IsPage(s.page) && staged + 2 < |s.bmc| && !CpldType(s.bmc[staged + 2]) && !ValidAt(d, s.page, s.bmc, RECOVERY)
    ensures !GoodCapsule(d, boots, s, staged) && !GoodCapsule(d, boots, s, RECOVERY)
  {
    if GoodCapsule(d, boots, s, staged) {
      GoodType(d, boots, s, staged);
    }
    hide ValidAt, CpldType, IsCpldCapsule, PayloadAt, GoodImage;
  }

  // If the images in authentic capsules of the right type work, the type words alone tell the safe passes
  ghost predicate SignedImagesWork(d: Device, boots: Hardware, s: Store, staged: nat)
    requires IsPage(s.page)
  {
    && (CpldCapsule(d, s, staged) ==> GoodCapsule(d, boots, s, staged))
    && (CpldCapsule(d, s, RECOVERY) ==> GoodCapsule(d, boots, s, RECOVERY))
  }

  // An authentic payload of CPLD type lies at a place
  predicate RightType(d: Device, s: Store, at: nat)
    requires IsPage(s.page)
  {
    ValidAt(d, s.page, s.bmc, at) && at + 2 < |s.bmc| && CpldType(s.bmc[at + 2])
  }

  lemma SafePassByTypes(d: Device, boots: Hardware, s: Store, staged: nat, top: nat, reason: Reason)
    requires LaidOut(s, d, staged, top) && 288 + d.cpldImageWords <= AREA && IsPage(s.page) && SignedImagesWork(d, boots, s, staged)
    ensures SafePass(d, boots, s, staged, top, reason)
       <==> if reason.PowerUpOrSwitchToCfm0? then
              RomPlan(d, s, staged, top, reason).steps == [] || RightType(d, s, staged) || RightType(d, s, RECOVERY)
            else if ValidAt(d, s.page, s.bmc, RECOVERY) then RightType(d, s, RECOVERY) || RightType(d, s, staged)
            else ValidAt(d, s.page, s.bmc, staged) ==> RightType(d, s, staged)
  {
    LaidOutParts(d, s, staged, top);
    TypeTellsGood(d, boots, s, staged, staged);
    TypeTellsGood(d, boots, s, staged, RECOVERY);
    hide RomPlan, ValidAt, GoodCapsule, RightType;
  }

  lemma TypeTellsGood(d: Device, boots: Hardware, s: Store, staged: nat, at: nat)
    requires IsPage(s.page) && SignedImagesWork(d, boots, s, staged) && (at == staged || at == RECOVERY)
    requires at + AREA <= |s.bmc| && 288 + d.cpldImageWords <= AREA
    ensures GoodCapsule(d, boots, s, at) <==> RightType(d, s, at)
  {
    if ValidAt(d, s.page, s.bmc, at) {
      TypeAt(s.bmc, at);
    }
    hide SignatureValid, CpldType, IsCpldCapsule, PayloadAt, GoodImage, SignedPayloadSize;
  }

  // ---------------------------------------------------------------- over all runs

  // Power can be lost after any number of steps; the active image acts, and the BMC writes its
  // flash, only while CFM1 runs
  datatype Event =
    | RomPass(reason: Reason, cut: nat)
    | TriggerUpdate(recovery: bool, cut: nat)
    | PromoteCapsule(cut: nat)
    | BmcWrites(contents: Mem)

  function Cut(t: seq<Step>, k: nat): seq<Step> { if k <= |t| then t[..k] else t }

  ghost predicate Possible(d: Device, boots: Hardware, s: Store, e: Event, staged: nat, top: nat)
    requires LaidOut(s, d, staged, top) && 288 + d.cpldImageWords <= AREA
  {
    match e
    case RomPass(reason, _) => SafePass(d, boots, s, staged, top, reason)
    case BmcWrites(contents) => Complete(boots, s) && |contents| == |s.bmc|
    case _ => Complete(boots, s)
  }

  function After(d: Device, s: Store, e: Event, staged: nat, top: nat): (r: Store)
    requires LaidOut(s, d, staged, top) && 288 + d.cpldImageWords <= AREA
  {
    match e
    case RomPass(reason, cut) => Steps(s, Cut(RomPlan(d, s, staged, top, reason).steps, cut), top)
    case TriggerUpdate(recovery, cut) => Steps(s, Cut(Trigger(|s.cfm1|, recovery), cut), top)
    case PromoteCapsule(cut) => Steps(s, Cut(Promote(s, staged), cut), top)
    case BmcWrites(contents) => if |contents| == |s.bmc| then s.(bmc := contents) else s
  }

  lemma CutIs(t: seq<Step>, k: nat)
    ensures exists j: nat :: j <= |t| && Cut(t, k) == t[..j]
  {
    var j := if k <= |t| then k else |t|;
    assert t[..|t|] == t;
    assert j <= |t| && Cut(t, k) == t[..j];
  }

  lemma AfterLaidOut(d: Device, s: Store, e: Event, staged: nat, top: nat)
    requires LaidOut(s, d, staged, top) && 288 + d.cpldImageWords <= AREA
    ensures LaidOut(After(d, s, e, staged, top), d, staged, top)
  {
    hide Steps, RomPlan, Trigger, Promote, Cut;
  }

  // A step keeps a good copy
  lemma EventKeepsGoodCopy(d: Device, boots: Hardware, s: Store, e: Event, staged: nat, top: nat)
    requires LaidOut(s, d, staged, top) && 288 + d.cpldImageWords <= AREA
    requires HasGoodCopy(d, boots, s, staged) && Possible(d, boots, s, e, staged, top)
    ensures IsPage(After(d, s, e, staged, top).page) && HasGoodCopy(d, boots, After(d, s, e, staged, top), staged)
  {
    AfterLaidOut(d, s, e, staged, top);
    hide ValidAt, GoodCapsule, Steps, RomPlan, Trigger, Promote, Cut, SafePass;
    match e
    case RomPass(reason, cut) =>
      var t := RomPlan(d, s, staged, top, reason).steps;
      CutIs(t, cut);
      var j: nat :| j <= |t| && Cut(t, cut) == t[..j];
      SafePassKeeps(d, boots, s, staged, top, reason, j);
    case TriggerUpdate(recovery, cut) =>
      var t := Trigger(|s.cfm1|, recovery);
      CutIs(t, cut);
      var j: nat :| j <= |t| && Cut(t, cut) == t[..j];
      TriggerKeeps(boots, s, recovery, top, j);
    case PromoteCapsule(cut) =>
      var t := Promote(s, staged);
      CutIs(t, cut);
      var j: nat :| j <= |t| && Cut(t, cut) == t[..j];
      PromoteKeeps(boots, s, staged, top, j);
    case BmcWrites(contents) =>
  }

  ghost predicate PossibleRun(d: Device, boots: Hardware, s: Store, es: seq<Event>, staged: nat, top: nat)
    requires LaidOut(s, d, staged, top) && 288 + d.cpldImageWords <= AREA
    decreases |es|
  {
    es == [] || (Possible(d, boots, s, es[0], staged, top)
                 && (AfterLaidOut(d, s, es[0], staged, top);
                     PossibleRun(d, boots, After(d, s, es[0], staged, top), es[1..], staged, top)))
  }

  function AfterAll(d: Device, s: Store, es: seq<Event>, staged: nat, top: nat): (r: Store)
    requires LaidOut(s, d, staged, top) && 288 + d.cpldImageWords <= AREA
    ensures LaidOut(r, d, staged, top)
    decreases |es|
  {
    if es == [] then s
    else
      AfterLaidOut(d, s, es[0], staged, top);
      AfterAll(d, After(d, s, es[0], staged, top), es[1..], staged, top)
  }

  // Whatever runs, with power lost anywhere, one of CFM1, the staged capsule and the recovery capsule
  // stays good
  lemma {:induction false} LastGoodCopySurvives(d: Device, boots: Hardware, s: Store, es: seq<Event>, staged: nat, top: nat)
    requires LaidOut(s, d, staged, top) && 288 + d.cpldImageWords <= AREA
    requires HasGoodCopy(d, boots, s, staged) && PossibleRun(d, boots, s, es, staged, top)
    ensures HasGoodCopy(d, boots, AfterAll(d, s, es, staged, top), staged)
    decreases |es|
  {
    if es != [] {
      AfterLaidOut(d, s, es[0], staged, top);
      EventKeepsGoodCopy(d, boots, s, es[0], staged, top);
      hide After, HasGoodCopy, Possible, LaidOut;
      LastGoodCopySurvives(d, boots, After(d, s, es[0], staged, top), es[1..], staged, top);
    }
  }

  // ---------------------------------------------------------------- convergence

  // What a run of the ROM image that is not cut short leaves; if CFM1 then does not start, the
  // hardware falls back to the ROM image with a failure as reason
  function Pass(d: Device, s: Store, staged: nat, top: nat, reason: Reason): (r: Store)
    requires LaidOut(s, d, staged, top) && 288 + d.cpldImageWords <= AREA
  {
    Steps(s, RomPlan(d, s, staged, top, reason).steps, top)
  }

  // The first pass after a power cycle updates from the staged capsule
  predicate Updates(d: Device, s: Store, staged: nat, top: nat)
    requires LaidOut(s, d, staged, top) && 288 + d.cpldImageWords <= AREA
  {
    RomPlan(d, s, staged, top, PowerUpOrSwitchToCfm0).steps != []
  }

  // After a power cycle at any point, CFM1 holds an image that starts after one pass or, by way of the
  // failure that the hardware then reports, after a second one: exactly when the image the first pass
  // leaves starts, or the one that the recovery goes by
  lemma TwoPassesSufficeIff(d: Device, boots: Hardware, s: Store, staged: nat, top: nat)
    requires LaidOut(s, d, staged, top) && 288 + d.cpldImageWords <= AREA
    ensures IsPage(s.page) && staged + AREA <= |s.bmc| && RECOVERY + AREA <= |s.bmc|
    ensures var once := Pass(d, s, staged, top, PowerUpOrSwitchToCfm0);
            var first := if Updates(d, s, staged, top) then Starts(boots, Bitstream(s.bmc, staged, d.cpldImageWords)) else Complete(boots, s);
            var some := ValidAt(d, s.page, s.bmc, RECOVERY) || ValidAt(d, s.page, s.bmc, staged);
            && LaidOut(once, d, staged, top) && (Complete(boots, once) <==> first)
            && (RomPlan(d, once, staged, top, Failure).Recover? <==> some)
            && (some ==> (Complete(boots, Pass(d, once, staged, top, Failure)) <==> Starts(boots, RecoveredImage(d, s, staged))))
  {
    LaidOutParts(d, s, staged, top);
    hide *;
    var once := Pass(d, s, staged, top, PowerUpOrSwitchToCfm0);
    PassLaidOut(d, s, staged, top, PowerUpOrSwitchToCfm0);
    LaidOutParts(d, once, staged, top);
    FirstPass(d, boots, s, staged, top);
    PassIs(d, once, staged, top, Failure);
    RomCases(d, once, staged, top, Failure);
    RecoveryCompletesIff(d, boots, once, staged, top);
    SameRecovery(d, s, once, staged);
  }

  lemma FirstPass(d: Device, boots: Hardware, s: Store, staged: nat, top: nat)
    requires LaidOut(s, d, staged, top) && 288 + d.cpldImageWords <= AREA
    ensures staged + AREA <= |s.bmc|
    ensures var once, img := Pass(d, s, staged, top, PowerUpOrSwitchToCfm0), Bitstream(s.bmc, staged, d.cpldImageWords);
            && once == s.(cfm1 := once.cfm1)
            && (Complete(boots, once) <==> if Updates(d, s, staged, top) then Starts(boots, img) else Complete(boots, s))
  {
    LaidOutParts(d, s, staged, top);
    PassCases(d, boots, s, staged, top, PowerUpOrSwitchToCfm0);
    UpdatesIs(d, s, staged, top);
    hide *;
    PassIs(d, s, staged, top, PowerUpOrSwitchToCfm0);
    var t, img := RomPlan(d, s, staged, top, PowerUpOrSwitchToCfm0).steps, Bitstream(s.bmc, staged, d.cpldImageWords);
    NoSteps(s, t, top);
    if t != [] {
      RewrittenWhole(s, img, top);
      CompleteWith(boots, s, img);
    }
  }

  lemma UpdatesIs(d: Device, s: Store, staged: nat, top: nat)
    requires LaidOut(s, d, staged, top) && 288 + d.cpldImageWords <= AREA
    ensures Updates(d, s, staged, top) <==> RomPlan(d, s, staged, top, PowerUpOrSwitchToCfm0).steps != []
  {
    hide RomPlan;
  }

  lemma SameRecovery(d: Device, s: Store, r: Store, staged: nat)
    requires IsPage(s.page) && RECOVERY + AREA <= |s.bmc| && 288 + d.cpldImageWords <= AREA && r == s.(cfm1 := r.cfm1)
    ensures IsPage(r.page) && RecoveredImage(d, r, staged) == RecoveredImage(d, s, staged)
    ensures ValidAt(d, r.page, r.bmc, RECOVERY) == ValidAt(d, s.page, s.bmc, RECOVERY)
    ensures ValidAt(d, r.page, r.bmc, staged) == ValidAt(d, s.page, s.bmc, staged)
  {
    hide ValidAt, Restored, Bitstream;
  }

  // So with one good copy left, two passes are enough when the images in signed capsules work and nothing
  // authentic at the two places is of another type
  lemma TwoPassesSuffice(d: Device, boots: Hardware, s: Store, staged: nat, top: nat)
    requires LaidOut(s, d, staged, top) && 288 + d.cpldImageWords <= AREA && IsPage(s.page)
    requires HasGoodCopy(d, boots, s, staged) && SignedImagesWork(d, boots, s, staged)
    requires ValidAt(d, s.page, s.bmc, staged) ==> RightType(d, s, staged)
    requires ValidAt(d, s.page, s.bmc, RECOVERY) ==> RightType(d, s, RECOVERY)
    ensures var once := Pass(d, s, staged, top, PowerUpOrSwitchToCfm0);
            && LaidOut(once, d, staged, top)
            && (Complete(boots, once)
                || (RomPlan(d, once, staged, top, Failure).Recover? && Complete(boots, Pass(d, once, staged, top, Failure))))
  {
    LaidOutParts(d, s, staged, top);
    TypeTellsGood(d, boots, s, staged, staged);
    TypeTellsGood(d, boots, s, staged, RECOVERY);
    GoodOrComplete(d, boots, s, staged);
    UpdatesFromValid(d, s, staged, top);
    hide *;
    TwoPassesSufficeIff(d, boots, s, staged, top);
    if ValidAt(d, s.page, s.bmc, staged) {
      GoodStarts(d, boots, s, staged);
    }
    if ValidAt(d, s.page, s.bmc, RECOVERY) || ValidAt(d, s.page, s.bmc, staged) {
      RecoveredStarts(d, boots, s, staged);
    }
  }

  lemma GoodOrComplete(d: Device, boots: Hardware, s: Store, staged: nat)
    requires IsPage(s.page) && HasGoodCopy(d, boots, s, staged)
    ensures Complete(boots, s) || ValidAt(d, s.page, s.bmc, RECOVERY) || ValidAt(d, s.page, s.bmc, staged)
  {
    hide ValidAt, Complete, PayloadAt, IsCpldCapsule, GoodImage;
  }

  lemma UpdatesFromValid(d: Device, s: Store, staged: nat, top: nat)
    requires LaidOut(s, d, staged, top) && 288 + d.cpldImageWords <= AREA
    ensures IsPage(s.page) && (Updates(d, s, staged, top) ==> ValidAt(d, s.page, s.bmc, staged))
  {
    hide ValidAt, UfmSvn, Bitstream;
  }

  lemma GoodStarts(d: Device, boots: Hardware, s: Store, at: nat)
    requires IsPage(s.page) && GoodCapsule(d, boots, s, at)
    ensures at + 257 + d.cpldImageWords <= |s.bmc| && Starts(boots, Bitstream(s.bmc, at, d.cpldImageWords))
  {
    hide ValidAt, IsCpldCapsule, PayloadAt, Starts;
  }

  lemma RecoveredStarts(d: Device, boots: Hardware, s: Store, staged: nat)
    requires IsPage(s.page) && RECOVERY + AREA <= |s.bmc| && staged + AREA <= RECOVERY && 288 + d.cpldImageWords <= AREA
    requires ValidAt(d, s.page, s.bmc, RECOVERY) || ValidAt(d, s.page, s.bmc, staged)
    requires ValidAt(d, s.page, s.bmc, RECOVERY) ==> GoodCapsule(d, boots, s, RECOVERY)
    requires ValidAt(d, s.page, s.bmc, staged) ==> GoodCapsule(d, boots, s, staged)
    ensures Starts(boots, RecoveredImage(d, s, staged))
  {
    RecoveredImageIs(d, s, staged);
    hide *;
    if ValidAt(d, s.page, s.bmc, RECOVERY) {
      GoodStarts(d, boots, s, RECOVERY);
    } else {
      GoodIsCpld(d, boots, s, staged);
      GoodStarts(d, boots, s, staged);
      RestoreCompletes(d, s, staged);
    }
  }

  lemma PassIs(d: Device, s: Store, staged: nat, top: nat, reason: Reason)
    requires LaidOut(s, d, staged, top) && 288 + d.cpldImageWords <= AREA
    ensures Pass(d, s, staged, top, reason) == Steps(s, RomPlan(d, s, staged, top, reason).steps, top)
  {
    hide Steps, RomPlan;
  }

  lemma PassLaidOut(d: Device, s: Store, staged: nat, top: nat, reason: Reason)
    requires LaidOut(s, d, staged, top) && 288 + d.cpldImageWords <= AREA
    ensures LaidOut(Pass(d, s, staged, top, reason), d, staged, top)
  {
    hide Steps, RomPlan;
  }
}
