/**
 fw/code/inc/flash_validation.h: authenticating the active, recovery and staging regions of a flash
 and repairing what can be repaired, and firmware promotion (fw/code/inc/firmware_update.h) when
 power is lost in the middle of it.
 */
module FlashValidation {
  import opened NorFlash
  import opened Sequences
  import opened SpiRwUtils
  import opened Bits
  import opened Ufm
  import opened Authentication
  import opened Pfm
  import opened PfmWalk
  import opened Decompression
  import opened Rebuild
  import opened PfmValidation
  import opened CapsuleValidation
  import opened PowerLoss

  // The provisioned 4KB pages where the regions of a flash start, the address of the staging region
  // as manifests give it, and the SVN policy of the flash
  datatype FlashMap = FlashMap(pfm: nat, recovery: nat, staging: nat, stagingAddr: Word, policy: SvnPolicy) {
    function Active(): nat { 1024 * pfm }
    function Recovery(): nat { 1024 * recovery }
    function Staging(): nat { 1024 * staging }
  }

  predicate LaidOut(cfg: FlashMap, words: nat) {
    cfg.Active() + 16384 <= words && cfg.Recovery() + 514 <= words && cfg.Staging() + 514 <= words
  }

  // ---------------------------------------------------------------- promotion

  // does_staged_fw_image_match_active_fw_image: the PFM hashes in both block 0s are equal
  predicate HashesMatch(m: Mem, cfg: FlashMap)
    requires LaidOut(cfg, |m|)
  {
    m[cfg.Active() + 4..cfg.Active() + 12] == m[cfg.Staging() + 260..cfg.Staging() + 268]
  }

  // check_capsule_before_fw_recovery_update
  predicate Promotable(d: Device, u: Mem, m: Mem, cfg: FlashMap, skipHashCheck: bool)
    requires IsPage(u) && LaidOut(cfg, |m|)
  {
    ValidAt(d, u, m, cfg.Staging()) && (skipHashCheck || HashesMatch(m, cfg))
  }

  // The commands perform_firmware_recovery_update gives to the flash
  function PromotionTrace(m: Mem, cfg: FlashMap): seq<Op>
    requires HoldsPayload(m, cfg.Staging())
  {
    MemcpyTrace(cfg.recovery, SignedPayloadSize(m, cfg.Staging()), PayloadAt(m, cfg.Staging()))
  }

  function Promoted(m: Mem, cfg: FlashMap): (r: Mem)
    requires HoldsPayload(m, cfg.Staging())
    ensures |r| == |m|
  {
    Run(m, PromotionTrace(m, cfg))
  }

  // The copy stays inside the flash and away from the staging region
  predicate CopyFits(m: Mem, cfg: FlashMap)
    requires HoldsPayload(m, cfg.Staging())
  {
    MemcpyFits(|m|, cfg.recovery, cfg.Staging(), SignedPayloadSize(m, cfg.Staging()))
  }

  // does_staged_fw_image_match_active_fw_image, word by word
  method CompareHashes(f: SpiFlash, cfg: FlashMap) returns (same: bool)
    requires LaidOut(cfg, f.mem.Length)
    ensures same == HashesMatch(f.mem[..], cfg)
  {
    ghost var a := f.mem[cfg.Active() + 4..cfg.Active() + 12];
    ghost var b := f.mem[cfg.Staging() + 260..cfg.Staging() + 268];
    assert a == f.mem[..][cfg.Active() + 4..cfg.Active() + 12] && b == f.mem[..][cfg.Staging() + 260..cfg.Staging() + 268];
    for i := 0 to 8
      invariant a[..i] == b[..i]
    {
      if f.mem[cfg.Active() + 4 + i] != f.mem[cfg.Staging() + 260 + i] {
        assert a[i] != b[i];
        return false;
      }
    }
    assert a[..8] == a && b[..8] == b;
    return true;
  }

  method CheckCapsuleBeforeFwRecoveryUpdate(f: SpiFlash, u: Mem, d: Device, cfg: FlashMap, skipHashCheck: bool) returns (ok: bool)
    requires IsPage(u) && LaidOut(cfg, f.mem.Length)
    ensures ok == Promotable(d, u, f.mem[..], cfg, skipHashCheck)
  {
    hide ValidAt, HashesMatch;
    ok := IsSignatureValidAt(f, d, u, cfg.Staging());
    if ok && !skipHashCheck {
      ok := CompareHashes(f, cfg);
    }
  }

  // perform_firmware_recovery_update
  method PerformFirmwareRecoveryUpdate(f: SpiFlash, page: array<Word>, cfg: FlashMap)
    requires f.Valid() && page.Length == 59 && page != f.mem && LaidOut(cfg, f.mem.Length)
    requires HoldsPayload(f.mem[..], cfg.Staging()) && CopyFits(f.mem[..], cfg)
    modifies f, f.mem, page
    ensures f.Valid() && f.log == old(f.log) + PromotionTrace(old(f.mem[..]), cfg)
    ensures f.mem[..] == Promoted(old(f.mem[..]), cfg)
    ensures page[..] == SvnWritten(old(page[..]), cfg.policy, PfmSvn(f.mem[..], cfg.Staging()))
  {
    hide *;
    CopyStaging(f, cfg);
    var svn := ReadPfmSvn(f, cfg);
    WriteUfmSvn(page, svn, cfg.policy);
  }

  method CopyStaging(f: SpiFlash, cfg: FlashMap)
    requires f.Valid() && LaidOut(cfg, f.mem.Length)
    requires HoldsPayload(f.mem[..], cfg.Staging()) && CopyFits(f.mem[..], cfg)
    modifies f, f.mem
    ensures f.Valid() && f.log == old(f.log) + PromotionTrace(old(f.mem[..]), cfg)
    ensures f.mem[..] == Promoted(old(f.mem[..]), cfg)
  {
    hide *;
    Holds(f);
    ghost var m, log := f.mem[..], f.log;
    PromotionIs(m, cfg);
    MemcpySignedPayload(f, 4096 * cfg.recovery, cfg.Staging(), cfg.recovery);
    Replayed(f, m, log, PromotionTrace(m, cfg));
  }

  method ReadPfmSvn(f: SpiFlash, cfg: FlashMap) returns (svn: nat)
    requires LaidOut(cfg, f.mem.Length)
    ensures cfg.Staging() + 513 < f.mem.Length && svn == PfmSvn(f.mem[..], cfg.Staging())
  {
    svn := (f.mem[cfg.Staging() + 513] & 0xFF) as nat;
  }

  lemma PromotionIs(m: Mem, cfg: FlashMap)
    requires HoldsPayload(m, cfg.Staging()) && CopyFits(m, cfg)
    ensures var src := cfg.Staging(); var n := SignedPayloadSize(m, src);
            && src + 1 < |m| && MemcpyFits(|m|, cfg.recovery, src, n) && src + n / 4 <= |m|
            && Promoted(m, cfg) == Run(m, PromotionTrace(m, cfg))
            && PromotionTrace(m, cfg) == MemcpyTrace(cfg.recovery, n, m[src..src + n / 4])
  {
    AtItsPlace(m, cfg.Staging());
    hide MemcpyTrace, MemcpyFits, Run;
  }

  // ---------------------------------------------------------------- a promotion cut short

  ghost predicate Injective(sha: seq<Word> -> seq<Word>) {
    forall a: seq<Word>, b: seq<Word> :: sha(a) == sha(b) ==> a == b
  }

  // A payload that shares the signature block with an authentic one and passes is that payload
  lemma SameSignatureSamePayload(d: Device, u: Mem, s: seq<Word>, t: seq<Word>)
    requires IsPage(u) && SignatureValid(d, u, s) && SignatureValid(d, u, t) && Injective(d.sha)
    requires |s| >= 256 && |t| >= 256 && s[..256] == t[..256]
    requires |s| == 256 + PcLength(s) / 4 && |t| == 256 + PcLength(t) / 4
    ensures s == t
  {
    Block0Hash(d, u, s);
    Block0Hash(d, u, t);
    hide *;
    SamePart(s, t, 256, 4, 12);
    SplitAt(s, 256);
    SplitAt(t, 256);
    SameHash(d, s[256..], t[256..]);
  }

  lemma SameHash(d: Device, a: seq<Word>, b: seq<Word>)
    requires Injective(d.sha) && d.sha(a) == d.sha(b)
    ensures a == b
  {
  }

  lemma Block0Hash(d: Device, u: Mem, s: seq<Word>)
    requires IsPage(u) && SignatureValid(d, u, s) && |s| >= 256 && |s| == 256 + PcLength(s) / 4
    ensures d.sha(s[256..]) == s[4..12] && s[0] == 0xB6EA_FD19
  {
    assert s[256..256 + PcLength(s) / 4] == s[256..];
    hide Block1Valid, CertContentValid, LengthAllowed, AllZero, KchPcType, IsCertificate, PcLength;
  }

  // Where a valid payload starts, the word is the block 0 magic and not erased
  lemma ValidStart(d: Device, u: Mem, m: Mem, at: nat)
    requires IsPage(u) && ValidAt(d, u, m, at)
    ensures at + 256 <= |m| && m[at] != ERASED && HoldsPayload(m, at) && SignatureValid(d, u, PayloadAt(m, at))
    ensures |PayloadAt(m, at)| == 256 + PcLength(PayloadAt(m, at)) / 4
  {
    PayloadLength(m, at);
    Block0Hash(d, u, PayloadAt(m, at));
    hide SignatureValid, PcLength, SignedPayloadSize;
  }

  lemma CutWhileErasing(d: Device, u: Mem, m: Mem, page: nat, n: nat, data: seq<Word>, k: nat)
    requires IsPage(u) && |data| % 4 == 0 && n > 0 && 1024 * page < |m| && 0 < k <= |EraseTrace(page, n)|
    ensures |EraseTrace(page, n)| <= |MemcpyTrace(page, n, data)|
    ensures !CapsuleValid(d, u, Run(m, MemcpyTrace(page, n, data)[..k]), 1024 * page)
  {
    hide *;
    TraceIs(page, n, data);
    assert MemcpyTrace(page, n, data)[..k] == EraseTrace(page, n)[..k];
    FirstWordErased(m, page, n, k);
    var r := Run(m, EraseTrace(page, n)[..k]);
    if CapsuleValid(d, u, r, 1024 * page) {
      ValidCapsuleStarts(d, u, r, 1024 * page);
    }
  }

  lemma CutWhileCopying(d: Device, u: Mem, r: Mem, m: Mem, page: nat, n: nat, data: seq<Word>, j: nat)
    requires IsPage(u) && Injective(d.sha) && n == 4 * |data| && 1024 * page + |data| <= |m| && |data| > 256 && j <= |data|
    requires SignatureValid(d, u, data) && |data| == 256 + PcLength(data) / 4
    requires r == Rewritten(m, page, page + PagesUpTo(n), 1024 * page, data[..j]) && CapsuleValid(d, u, r, 1024 * page)
    ensures HoldsPayload(r, 1024 * page) && PayloadAt(r, 1024 * page) == data
  {
    hide *;
    ValidCapsuleStarts(d, u, r, 1024 * page);
    CutContents(m, page, n, data, j, r);
    PayloadOfCut(d, u, r, 1024 * page, data);
  }

  // If a promotion that was cut short leaves a recovery capsule that passes, the copy was complete
  lemma CutCopyPassesOnlyComplete(d: Device, u: Mem, m: Mem, page: nat, n: nat, data: seq<Word>, k: nat)
    requires IsPage(u) && Injective(d.sha) && |data| % 4 == 0 && n == 4 * |data| && 1024 * page + |data| <= |m| && |data| > 256
    requires SignatureValid(d, u, data) && |data| == 256 + PcLength(data) / 4
    requires 0 < k <= |MemcpyTrace(page, n, data)|
    requires CapsuleValid(d, u, Run(m, MemcpyTrace(page, n, data)[..k]), 1024 * page)
    ensures var r := Run(m, MemcpyTrace(page, n, data)[..k]); HoldsPayload(r, 1024 * page) && PayloadAt(r, 1024 * page) == data
  {
    hide *;
    var e := |EraseTrace(page, n)|;
    CutTrace(page, n, data, 0);
    if k <= e {
      CutWhileErasing(d, u, m, page, n, data, k);
    } else {
      var j := k - e;
      CopyCut(m, page, page + PagesUpTo(n), n, data, j);
      CutWhileCopying(d, u, Run(m, MemcpyTrace(page, n, data)[..k]), m, page, n, data, j);
    }
  }

  lemma ValidCapsuleStarts(d: Device, u: Mem, r: Mem, at: nat)
    requires IsPage(u) && CapsuleValid(d, u, r, at)
    ensures at + 512 <= |r| && r[at] != ERASED && r[at + 256] != ERASED
    ensures HoldsPayload(r, at) && SignatureValid(d, u, PayloadAt(r, at))
    ensures |PayloadAt(r, at)| == 256 + PcLength(PayloadAt(r, at)) / 4
  {
    hide ValidAt, SignatureValid, PbcValid;
    ValidStart(d, u, r, at);
    ValidStart(d, u, r, at + 256);
  }

  lemma PayloadOfCut(d: Device, u: Mem, r: Mem, at: nat, data: seq<Word>)
    requires IsPage(u) && Injective(d.sha) && SignatureValid(d, u, data) && |data| >= 256 && |data| == 256 + PcLength(data) / 4
    requires at + 256 <= |r| && r[at..at + 256] == data[..256]
    requires HoldsPayload(r, at) && SignatureValid(d, u, PayloadAt(r, at))
    requires |PayloadAt(r, at)| == 256 + PcLength(PayloadAt(r, at)) / 4
    ensures PayloadAt(r, at) == data
  {
    var s := PayloadAt(r, at);
    AtItsPlace(r, at);
    hide SignatureValid, PcLength, SignedPayloadSize, PayloadAt;
    assert s[..256] == r[at..at + 256];
    SameSignatureSamePayload(d, u, s, data);
  }

  // ---------------------------------------------------------------- authenticate_and_recover_spi_flash

  // A capsule in the recovery region can rebuild the active region
  predicate CanRebuild(c: seq<Word>, cfg: FlashMap, words: nat) {
    Usable(c, StaticAndDynamic, cfg.stagingAddr, cfg.Recovery(), cfg.pfm, words)
  }

  // The whole active region rebuilt from the recovery capsule
  function ActiveRebuilt(m: Mem, cfg: FlashMap): (r: Mem)
    ensures |r| == |m|
  {
    if HoldsPayload(m, cfg.Recovery()) && Readable(PayloadAt(m, cfg.Recovery())) then
      RebuiltFrom(PayloadAt(m, cfg.Recovery()), StaticAndDynamic, cfg.stagingAddr, cfg.pfm, m)
    else m
  }

  // An authentication promotes when the recovery capsule is not valid and the staged one will do; it
  // rebuilds when it then has a recovery capsule and the active region is not valid, or when forced
  predicate Promotes(d: Device, u: Mem, m: Mem, cfg: FlashMap)
    requires IsPage(u) && LaidOut(cfg, |m|)
  {
    !CapsuleValid(d, u, m, cfg.Recovery()) && Promotable(d, u, m, cfg, !ActiveValid(d, u, m, cfg.Active()))
  }

  predicate Rebuilds(d: Device, u: Mem, m: Mem, cfg: FlashMap, force: bool)
    requires IsPage(u) && LaidOut(cfg, |m|)
  {
    && (CapsuleValid(d, u, m, cfg.Recovery()) || Promotes(d, u, m, cfg))
    && (force || !ActiveValid(d, u, m, cfg.Active()))
  }

  function PromotedIfNeeded(d: Device, u: Mem, m: Mem, cfg: FlashMap): (r: Mem)
    requires IsPage(u) && LaidOut(cfg, |m|)
    ensures |r| == |m|
  {
    if Promotes(d, u, m, cfg) then Promoted(m, cfg) else m
  }

  // The recovery region holds a capsule that can rebuild the active region
  predicate CanRecover(m: Mem, cfg: FlashMap) {
    HoldsPayload(m, cfg.Recovery()) && CanRebuild(PayloadAt(m, cfg.Recovery()), cfg, |m|)
  }

  // The code goes by the signature of a capsule and not by its contents. It can carry out what it decides
  // on when the copy it makes fits and the recovery region then holds a capsule to rebuild from.
  predicate CarriesOut(d: Device, u: Mem, m: Mem, cfg: FlashMap, force: bool)
    requires IsPage(u) && LaidOut(cfg, |m|)
  {
    && (Promotes(d, u, m, cfg) ==> CopyFits(m, cfg))
    && (Rebuilds(d, u, m, cfg, force) ==> CanRecover(PromotedIfNeeded(d, u, m, cfg), cfg))
  }

  // The same, row by row of the recovery matrix, told from the contents it starts with: a valid recovery
  // capsule that it rebuilds from can be used; a staged payload that it promotes fits the recovery region
  // and, if it goes on to rebuild, can be used too; otherwise nothing is asked
  predicate Workable(d: Device, u: Mem, m: Mem, cfg: FlashMap, force: bool)
    requires IsPage(u) && LaidOut(cfg, |m|)
  {
    var active := ActiveValid(d, u, m, cfg.Active());
    if CapsuleValid(d, u, m, cfg.Recovery()) then force || !active ==> CanRecover(m, cfg)
    else Promotable(d, u, m, cfg, !active) ==>
           CopyFits(m, cfg) && (force || !active ==> CanRebuild(PayloadAt(m, cfg.Staging()), cfg, |m|))
  }

  datatype Outcome = Outcome(mem: Mem, page: Mem, active: bool, recoveryFailed: bool, allFailed: bool)

  // What one authentication leaves: the flash, the provisioned data, whether the active region was
  // found or made valid, and the two failure bits of the flash state
  function Authenticate(d: Device, u: Mem, m: Mem, cfg: FlashMap, force: bool): (o: Outcome)
    requires IsPage(u) && LaidOut(cfg, |m|)
    ensures |o.mem| == |m| && IsPage(o.page)
  {
    var active, usable := ActiveValid(d, u, m, cfg.Active()), CapsuleValid(d, u, m, cfg.Recovery()) || Promotes(d, u, m, cfg);
    var rebuild, mem := Rebuilds(d, u, m, cfg, force), PromotedIfNeeded(d, u, m, cfg);
    var page := if Promotes(d, u, m, cfg) then SvnWritten(u, cfg.policy, PfmSvn(mem, cfg.Staging())) else u;
    Outcome(if rebuild then ActiveRebuilt(mem, cfg) else mem, page, active || rebuild, !usable && active, !usable && !active)
  }

  // What a promotion can take for granted of signed contents: an authentic capsule can be used to
  // rebuild the image
  ghost predicate Trusted(d: Device, u: Mem, m: Mem, cfg: FlashMap)
    requires IsPage(u) && LaidOut(cfg, |m|)
  {
    && (CapsuleValid(d, u, m, cfg.Recovery()) ==> CanRebuild(PayloadAt(m, cfg.Recovery()), cfg, |m|))
    && (ValidAt(d, u, m, cfg.Staging()) ==> CopyFits(m, cfg) && CanRebuild(PayloadAt(m, cfg.Staging()), cfg, |m|))
  }

  // The copy of an authentic staged capsule
  lemma PromotedCapsule(d: Device, u: Mem, m: Mem, cfg: FlashMap)
    requires IsPage(u) && ValidAt(d, u, m, cfg.Staging()) && CopyFits(m, cfg)
    ensures var r := Promoted(m, cfg);
            && HoldsPayload(r, cfg.Recovery()) && PayloadAt(r, cfg.Recovery()) == PayloadAt(m, cfg.Staging())
            && HoldsPayload(r, cfg.Staging()) && PayloadAt(r, cfg.Staging()) == PayloadAt(m, cfg.Staging())
            && SameOutside(r, m, cfg.recovery, cfg.recovery + PagesUpTo(SignedPayloadSize(m, cfg.Staging())))
  {
    assert HoldsPayload(m, cfg.Staging()) && MemcpyFits(|m|, cfg.recovery, cfg.Staging(), SignedPayloadSize(m, cfg.Staging()));
    assert Promoted(m, cfg)
        == Run(m, MemcpyTrace(cfg.recovery, SignedPayloadSize(m, cfg.Staging()), PayloadAt(m, cfg.Staging())));
    hide *;
    CopyKeepsValidity(d, u, m, cfg.recovery, cfg.Staging());
  }

  method RebuildActive(f: SpiFlash, cfg: FlashMap)
    requires f.Valid() && CanRecover(f.mem[..], cfg)
    modifies f, f.mem
    ensures f.Valid() && f.mem[..] == ActiveRebuilt(old(f.mem[..]), cfg)
  {
    ghost var c := PayloadAt(f.mem[..], cfg.Recovery());
    AtItsPlace(f.mem[..], cfg.Recovery());
    assert WordsAt(f.mem[..], cfg.Recovery(), c);
    RebuildReady(f.mem[..], cfg);
    hide *;
    var n := GetSignedPayloadSize(f, cfg.Recovery());
    DecompressCapsule(f, cfg.Recovery(), n / 4, StaticAndDynamic, cfg.stagingAddr, cfg.pfm, c);
  }

  lemma RebuildReady(m: Mem, cfg: FlashMap)
    requires CanRecover(m, cfg)
    ensures var c := PayloadAt(m, cfg.Recovery());
            && cfg.Recovery() + 1 < |m| && Readable(c)
            && Usable(c, StaticAndDynamic, cfg.stagingAddr, cfg.Recovery(), cfg.pfm, |m|)
            && ActiveRebuilt(m, cfg) == RebuiltFrom(c, StaticAndDynamic, cfg.stagingAddr, cfg.pfm, m)
  {
    hide Readable, RebuiltFrom, PayloadAt, RegionsSafe, CapsuleRegions, LayoutOf, SignedPfm, SignedPayloadSize;
  }

  method IsCapsuleValid(f: SpiFlash, d: Device, u: Mem, at: nat) returns (ok: bool)
    requires IsPage(u) && at + 258 <= f.mem.Length
    ensures ok == CapsuleValid(d, u, f.mem[..], at)
  {
    hide ValidAt, PbcValid;
    ok := IsSignatureValidAt(f, d, u, at);
    if ok {
      ok := IsSignatureValidAt(f, d, u, at + 256);
      if ok {
        ok := IsPbcValid(f, at);
      }
    }
  }

  // The part of authenticate_and_recover_spi_flash for an invalid recovery capsule
  method RepairRecovery(f: SpiFlash, page: array<Word>, d: Device, cfg: FlashMap, active: bool) returns (promoted: bool)
    requires f.Valid() && page.Length == 59 && page != f.mem && LaidOut(cfg, f.mem.Length)
    requires CopyIsSafe(d, page[..], f.mem[..], cfg, !active)
    modifies f, f.mem, page
    ensures f.Valid() && promoted == Promotable(d, old(page[..]), old(f.mem[..]), cfg, !active)
    ensures promoted ==> HoldsPayload(old(f.mem[..]), cfg.Staging())
    ensures f.mem[..] == if promoted then Promoted(old(f.mem[..]), cfg) else old(f.mem[..])
    ensures page[..] == if promoted then SvnWritten(old(page[..]), cfg.policy, PfmSvn(f.mem[..], cfg.Staging())) else old(page[..])
  {
    CopyIsSafeParts(d, page[..], f.mem[..], cfg, !active);
    hide *;
    Pages59();
    promoted := CheckCapsuleBeforeFwRecoveryUpdate(f, page[..], d, cfg, !active);
    if promoted {
      PerformFirmwareRecoveryUpdate(f, page, cfg);
    }
  }

  predicate CopyIsSafe(d: Device, u: Mem, m: Mem, cfg: FlashMap, skipHashCheck: bool)
    requires IsPage(u) && LaidOut(cfg, |m|)
  {
    Promotable(d, u, m, cfg, skipHashCheck) ==> CopyFits(m, cfg)
  }

  lemma Pages59()
    ensures forall u: Mem :: IsPage(u) <==> |u| == 59
  {
  }

  lemma CopyIsSafeParts(d: Device, u: Mem, m: Mem, cfg: FlashMap, skipHashCheck: bool)
    requires IsPage(u) && LaidOut(cfg, |m|) && CopyIsSafe(d, u, m, cfg, skipHashCheck)
    ensures Promotable(d, u, m, cfg, skipHashCheck) ==> HoldsPayload(m, cfg.Staging()) && CopyFits(m, cfg)
  {
    hide SignatureValid, MemcpyFits, HashesMatch;
  }

  // What repairing the recovery region leaves behind
  ghost predicate Repaired(d: Device, u: Mem, m: Mem, cfg: FlashMap, active: bool, usable: bool, mem: Mem, page: Mem)
    requires IsPage(u) && LaidOut(cfg, |m|)
  {
    var recovery := CapsuleValid(d, u, m, cfg.Recovery());
    var promote := !recovery && Promotable(d, u, m, cfg, !active);
    && usable == (recovery || promote) && (promote ==> HoldsPayload(m, cfg.Staging()))
    && mem == (if promote then Promoted(m, cfg) else m)
    && page == (if promote then SvnWritten(u, cfg.policy, PfmSvn(mem, cfg.Staging())) else u)
  }

  // The cases with an invalid recovery capsule
  method RepairOrReport(f: SpiFlash, page: array<Word>, d: Device, cfg: FlashMap, active: bool, recovery: bool)
    returns (usable: bool, recoveryFailed: bool, allFailed: bool)
    requires f.Valid() && page.Length == 59 && page != f.mem && LaidOut(cfg, f.mem.Length)
    requires recovery == CapsuleValid(d, page[..], f.mem[..], cfg.Recovery())
    requires !recovery ==> CopyIsSafe(d, page[..], f.mem[..], cfg, !active)
    modifies f, f.mem, page
    ensures f.Valid() && recoveryFailed == (!usable && active) && allFailed == (!usable && !active)
    ensures Repaired(d, old(page[..]), old(f.mem[..]), cfg, active, usable, f.mem[..], page[..])
  {
    ghost var u, m := page[..], f.mem[..];
    hide *;
    Pages59();
    usable, recoveryFailed, allFailed := recovery, false, false;
    if !recovery {
      usable := RepairRecovery(f, page, d, cfg, active);
      if !usable {
        if active {
          recoveryFailed := true;
        } else {
          allFailed := true;
        }
      }
    }
    RepairedIs(d, u, m, cfg, active, usable, f.mem[..], page[..]);
  }

  lemma RepairedIs(d: Device, u: Mem, m: Mem, cfg: FlashMap, active: bool, usable: bool, mem: Mem, page: Mem)
    requires IsPage(u) && LaidOut(cfg, |m|)
    requires var recovery := CapsuleValid(d, u, m, cfg.Recovery());
             var promote := !recovery && Promotable(d, u, m, cfg, !active);
             && usable == (recovery || promote) && (promote ==> HoldsPayload(m, cfg.Staging()))
             && mem == (if promote then Promoted(m, cfg) else m)
             && page == (if promote then SvnWritten(u, cfg.policy, PfmSvn(mem, cfg.Staging())) else u)
    ensures Repaired(d, u, m, cfg, active, usable, mem, page)
  {
    hide CapsuleValid, Promotable, HoldsPayload, Promoted, SvnWritten, PfmSvn;
  }

  // The recovery of the active image, when it failed or is forced
  method RecoverActive(f: SpiFlash, cfg: FlashMap, active: bool, usable: bool, force: bool) returns (now: bool)
    requires f.Valid() && (usable && (force || !active) ==> CanRecover(f.mem[..], cfg))
    modifies f, f.mem
    ensures f.Valid() && now == (active || (usable && (force || !active)))
    ensures f.mem[..] == if usable && (force || !active) then ActiveRebuilt(old(f.mem[..]), cfg) else old(f.mem[..])
  {
    hide *;
    now := active;
    if usable {
      if force {
        RebuildActive(f, cfg);
        now := true;
      } else if !active {
        RebuildActive(f, cfg);
        now := true;
      }
    }
  }

  // The authentication of the active and the recovery region
  method CheckRegions(f: SpiFlash, page: array<Word>, d: Device, cfg: FlashMap) returns (active: bool, recovery: bool)
    requires page.Length == 59 && LaidOut(cfg, f.mem.Length)
    ensures active == ActiveValid(d, page[..], f.mem[..], cfg.Active())
    ensures recovery == CapsuleValid(d, page[..], f.mem[..], cfg.Recovery())
  {
    InLayout(cfg, f.mem.Length);
    hide *;
    Pages59();
    active := IsActiveRegionValid(f, d, page[..], cfg.Active());
    recovery := IsCapsuleValid(f, d, page[..], cfg.Recovery());
  }

  method AuthenticateAndRecover(f: SpiFlash, page: array<Word>, d: Device, cfg: FlashMap, force: bool)
    returns (active: bool, recoveryFailed: bool, allFailed: bool)
    requires f.Valid() && page.Length == 59 && page != f.mem && LaidOut(cfg, f.mem.Length)
    requires Workable(d, page[..], f.mem[..], cfg, force)
    modifies f, f.mem, page
    ensures f.Valid()
    ensures Outcome(f.mem[..], page[..], active, recoveryFailed, allFailed)
         == Authenticate(d, old(page[..]), old(f.mem[..]), cfg, force)
  {
    hide *;
    Pages59();
    ghost var u, m := page[..], f.mem[..];
    var found, recovery := CheckRegions(f, page, d, cfg);
    active := found;
    WorkableIff(d, u, m, cfg, force);
    WorkableFirst(d, u, m, cfg, force);
    var usable: bool;
    usable, recoveryFailed, allFailed := RepairOrReport(f, page, d, cfg, active, recovery);
    ghost var mem := f.mem[..];
    WorkableThen(d, u, m, cfg, force, found, usable, mem, page[..]);
    active := RecoverActive(f, cfg, active, usable, force);
    AuthenticateIs(d, u, m, cfg, force, found, usable, mem, page[..]);
  }

  lemma AuthenticateIs(d: Device, u: Mem, m: Mem, cfg: FlashMap, force: bool, found: bool, usable: bool, mem: Mem, page: Mem)
    requires IsPage(u) && LaidOut(cfg, |m|) && found == ActiveValid(d, u, m, cfg.Active())
    requires Repaired(d, u, m, cfg, found, usable, mem, page)
    ensures var rebuild := usable && (force || !found);
            Authenticate(d, u, m, cfg, force)
              == Outcome(if rebuild then ActiveRebuilt(mem, cfg) else mem, page, found || rebuild, !usable && found, !usable && !found)
  {
    AuthenticateCases(d, u, m, cfg, force);
    hide ActiveValid, CapsuleValid, Promotable, Promoted, ActiveRebuilt, SvnWritten, PfmSvn, Authenticate, HoldsPayload;
  }

  lemma InLayout(cfg: FlashMap, words: nat)
    requires LaidOut(cfg, words)
    ensures cfg.Recovery() + 258 <= words
  {
  }

  // An authentication can carry out what it decides on exactly when its contents are workable
  lemma WorkableIff(d: Device, u: Mem, m: Mem, cfg: FlashMap, force: bool)
    requires IsPage(u) && LaidOut(cfg, |m|)
    ensures Workable(d, u, m, cfg, force) <==> CarriesOut(d, u, m, cfg, force)
  {
    PromotesValid(d, u, m, cfg);
    WorkableRows(d, u, m, cfg, force);
    hide *;
    if Promotes(d, u, m, cfg) && CopyFits(m, cfg) {
      PromotedCapsule(d, u, m, cfg);
      CanRecoverFrom(Promoted(m, cfg), PayloadAt(m, cfg.Staging()), cfg);
    }
  }

  lemma PromotesValid(d: Device, u: Mem, m: Mem, cfg: FlashMap)
    requires IsPage(u) && LaidOut(cfg, |m|)
    ensures Promotes(d, u, m, cfg) ==>
              !CapsuleValid(d, u, m, cfg.Recovery()) && ValidAt(d, u, m, cfg.Staging()) && HoldsPayload(m, cfg.Staging())
  {
    hide SignatureValid, HashesMatch, CapsuleValid, ActiveValid;
  }

  lemma WorkableRows(d: Device, u: Mem, m: Mem, cfg: FlashMap, force: bool)
    requires IsPage(u) && LaidOut(cfg, |m|) && (Promotes(d, u, m, cfg) ==> HoldsPayload(m, cfg.Staging()))
    ensures var rebuild, promotes := force || !ActiveValid(d, u, m, cfg.Active()), Promotes(d, u, m, cfg);
            var valid := CapsuleValid(d, u, m, cfg.Recovery());
            && (CarriesOut(d, u, m, cfg, force) <==>
                 && (valid && rebuild ==> CanRecover(m, cfg))
                 && (promotes ==> CopyFits(m, cfg) && (rebuild ==> CanRecover(Promoted(m, cfg), cfg))))
            && (Workable(d, u, m, cfg, force) <==>
                 && (valid && rebuild ==> CanRecover(m, cfg))
                 && (promotes ==> CopyFits(m, cfg) && (rebuild ==> CanRebuild(PayloadAt(m, cfg.Staging()), cfg, |m|))))
  {
    hide CapsuleValid, ActiveValid, Promotable, CanRecover, CanRebuild, CopyFits, Promoted, HoldsPayload, PayloadAt;
  }

  lemma CanRecoverFrom(m: Mem, c: seq<Word>, cfg: FlashMap)
    requires HoldsPayload(m, cfg.Recovery()) && PayloadAt(m, cfg.Recovery()) == c
    ensures CanRecover(m, cfg) <==> CanRebuild(c, cfg, |m|)
  {
    hide HoldsPayload, PayloadAt, CanRebuild;
  }

  // What makes an authentication workable, before and after the repair of the recovery region
  lemma WorkableFirst(d: Device, u: Mem, m: Mem, cfg: FlashMap, force: bool)
    requires IsPage(u) && LaidOut(cfg, |m|) && CarriesOut(d, u, m, cfg, force)
    ensures !CapsuleValid(d, u, m, cfg.Recovery()) ==> CopyIsSafe(d, u, m, cfg, !ActiveValid(d, u, m, cfg.Active()))
  {
    hide ActiveValid, CapsuleValid, Promotable, CopyFits, CanRecover, Rebuilds;
  }

  lemma WorkableThen(d: Device, u: Mem, m: Mem, cfg: FlashMap, force: bool, found: bool, usable: bool, mem: Mem, page: Mem)
    requires IsPage(u) && LaidOut(cfg, |m|) && CarriesOut(d, u, m, cfg, force) && found == ActiveValid(d, u, m, cfg.Active())
    requires Repaired(d, u, m, cfg, found, usable, mem, page)
    ensures usable && (force || !found) ==> CanRecover(mem, cfg)
  {
    hide ActiveValid, CapsuleValid, Promotable, CopyFits, CanRecover, Promoted, SvnWritten, PfmSvn;
  }

  lemma AuthenticateCases(d: Device, u: Mem, m: Mem, cfg: FlashMap, force: bool)
    requires IsPage(u) && LaidOut(cfg, |m|)
    ensures var active, recovery := ActiveValid(d, u, m, cfg.Active()), CapsuleValid(d, u, m, cfg.Recovery());
            var promote := !recovery && Promotable(d, u, m, cfg, !active);
            && (promote ==> HoldsPayload(m, cfg.Staging()) && cfg.Staging() + 513 < |m|)
            && var mem := if promote then Promoted(m, cfg) else m;
            var page := if promote then SvnWritten(u, cfg.policy, PfmSvn(mem, cfg.Staging())) else u;
            var rebuild := (recovery || promote) && (force || !active);
            Authenticate(d, u, m, cfg, force)
              == Outcome(if rebuild then ActiveRebuilt(mem, cfg) else mem, page, active || rebuild,
                         !recovery && !promote && active, !recovery && !promote && !active)
  {
    hide ActiveValid, CapsuleValid, Promoted, ActiveRebuilt, SvnWritten, PfmSvn, SignatureValid, HashesMatch;
  }

  // Authentic capsules that can be used make every authentication workable
  lemma WorkableWhenTrusted(d: Device, u: Mem, m: Mem, cfg: FlashMap, force: bool)
    requires IsPage(u) && LaidOut(cfg, |m|) && Trusted(d, u, m, cfg)
    ensures Workable(d, u, m, cfg, force)
  {
    TrustedParts(d, u, m, cfg);
    hide ActiveValid, CapsuleValid, ValidAt, HashesMatch, CopyFits, CanRebuild, CanRecover, HoldsPayload, PayloadAt, Trusted;
  }

  lemma TrustedParts(d: Device, u: Mem, m: Mem, cfg: FlashMap)
    requires IsPage(u) && LaidOut(cfg, |m|) && Trusted(d, u, m, cfg)
    ensures CapsuleValid(d, u, m, cfg.Recovery()) ==> CanRecover(m, cfg)
    ensures ValidAt(d, u, m, cfg.Staging()) ==>
              HoldsPayload(m, cfg.Staging()) && CopyFits(m, cfg) && CanRebuild(PayloadAt(m, cfg.Staging()), cfg, |m|)
  {
    hide SignatureValid, CanRebuild, MemcpyFits, PbcValid;
  }

  // With nothing valid but the signature of the staged payload it all depends on that payload: whether it
  // fits the recovery region and the image can be rebuilt from it
  lemma StagedRecoversIff(d: Device, u: Mem, m: Mem, cfg: FlashMap, force: bool)
    requires IsPage(u) && LaidOut(cfg, |m|) && !ActiveValid(d, u, m, cfg.Active()) && !CapsuleValid(d, u, m, cfg.Recovery())
    requires ValidAt(d, u, m, cfg.Staging())
    ensures HoldsPayload(m, cfg.Staging())
    ensures Workable(d, u, m, cfg, force) <==> CopyFits(m, cfg) && CanRebuild(PayloadAt(m, cfg.Staging()), cfg, |m|)
  {
    PromotesParts(d, u, m, cfg);
    hide ActiveValid, CapsuleValid, Promotable, CopyFits, CanRebuild, CanRecover, HoldsPayload, PayloadAt;
  }

  // A key cancellation certificate has an authentic signature too. Staged while neither the active nor the
  // recovery region is valid it is promoted, and then there is nothing to rebuild from.
  lemma StagedCertificateCannotRecover(d: Device, u: Mem, m: Mem, cfg: FlashMap, force: bool)
    requires IsPage(u) && LaidOut(cfg, |m|) && !ActiveValid(d, u, m, cfg.Active()) && !CapsuleValid(d, u, m, cfg.Recovery())
    requires ValidAt(d, u, m, cfg.Staging()) && IsCertificate(PayloadAt(m, cfg.Staging()))
    ensures Promotes(d, u, m, cfg) && Authenticate(d, u, m, cfg, force).active && !Workable(d, u, m, cfg, force)
  {
    var c := PayloadAt(m, cfg.Staging());
    CertificateTooShort(d, u, m, cfg, c);
    hide *;
    AuthenticateCases(d, u, m, cfg, force);
    PromotesParts(d, u, m, cfg);
    StagedRecoversIff(d, u, m, cfg, force);
  }

  lemma CertificateTooShort(d: Device, u: Mem, m: Mem, cfg: FlashMap, c: seq<Word>)
    requires IsPage(u) && ValidAt(d, u, m, cfg.Staging()) && c == PayloadAt(m, cfg.Staging()) && IsCertificate(c)
    ensures HoldsPayload(m, cfg.Staging()) && !CanRebuild(c, cfg, |m|)
  {
    PayloadLength(m, cfg.Staging());
    CertificateLength(d, u, c);
    hide SignatureValid, IsCertificate, PayloadAt, PcLength, CapsuleRegions, RegionsSafe, HasHeader, HoldsManifest, SignedPfm;
  }

  lemma CertificateLength(d: Device, u: Mem, c: seq<Word>)
    requires IsPage(u) && SignatureValid(d, u, c) && HasSignature(c) && IsCertificate(c)
    ensures PcLength(c) == 128
  {
    hide Block1Valid, CertContentValid, AllZero, KchPcType, IsCertificate, PcLength, IsDecommission;
  }

  lemma PromotesParts(d: Device, u: Mem, m: Mem, cfg: FlashMap)
    requires IsPage(u) && LaidOut(cfg, |m|) && !ActiveValid(d, u, m, cfg.Active()) && !CapsuleValid(d, u, m, cfg.Recovery())
    requires ValidAt(d, u, m, cfg.Staging())
    ensures Promotes(d, u, m, cfg) && HoldsPayload(m, cfg.Staging())
    ensures Promotable(d, u, m, cfg, !ActiveValid(d, u, m, cfg.Active()))
  {
    hide SignatureValid, ActiveValid, CapsuleValid, HashesMatch;
  }

  // ---------------------------------------------------------------- what an authentication promises

  // Some region of the flash is good for starting from
  predicate Bootable(d: Device, u: Mem, m: Mem, cfg: FlashMap)
    requires IsPage(u) && LaidOut(cfg, |m|)
  {
    ActiveValid(d, u, m, cfg.Active()) || CapsuleValid(d, u, m, cfg.Recovery()) || ValidAt(d, u, m, cfg.Staging())
  }

  // The device is kept in reset exactly when nothing is found or made valid, which is when no region is
  // good: neither the active region passes nor is there a signed capsule to rebuild it from
  lemma AuthenticatedOrHeld(d: Device, u: Mem, m: Mem, cfg: FlashMap, force: bool)
    requires IsPage(u) && LaidOut(cfg, |m|)
    ensures var o := Authenticate(d, u, m, cfg, force);
            && (o.allFailed <==> !o.active) && (o.active <==> Bootable(d, u, m, cfg))
            && (o.recoveryFailed ==> o.active && o.mem == m)
  {
    AuthenticateCases(d, u, m, cfg, force);
    assert Promotable(d, u, m, cfg, true) <==> ValidAt(d, u, m, cfg.Staging());
    assert Promotable(d, u, m, cfg, false) ==> ValidAt(d, u, m, cfg.Staging());
    BootableIs(d, u, m, cfg);
    hide *;
  }

  lemma BootableIs(d: Device, u: Mem, m: Mem, cfg: FlashMap)
    requires IsPage(u) && LaidOut(cfg, |m|)
    ensures Bootable(d, u, m, cfg)
       <==> ActiveValid(d, u, m, cfg.Active()) || CapsuleValid(d, u, m, cfg.Recovery()) || ValidAt(d, u, m, cfg.Staging())
  {
    hide ActiveValid, CapsuleValid, ValidAt;
  }

  // A minimum SVN that is raised matters to none of this
  lemma SvnWriteKeepsVerdicts(d: Device, u: Mem, p: SvnPolicy, svn: nat, m: Mem, cfg: FlashMap)
    requires IsPage(u) && LaidOut(cfg, |m|)
    ensures var v := SvnWritten(u, p, svn);
            && (Bootable(d, v, m, cfg) <==> Bootable(d, u, m, cfg))
            && forall force: bool :: Workable(d, v, m, cfg, force) <==> Workable(d, u, m, cfg, force)
  {
    var v := SvnWritten(u, p, svn);
    SameRegions(d, u, p, svn, m, cfg);
    hide ActiveValid, CapsuleValid, ValidAt, Promotable, SvnWritten, CanRecover, CopyFits, Promoted;
    SameDecisions(d, u, v, m, cfg);
  }

  lemma SameRegions(d: Device, u: Mem, p: SvnPolicy, svn: nat, m: Mem, cfg: FlashMap)
    requires IsPage(u) && LaidOut(cfg, |m|)
    ensures var v := SvnWritten(u, p, svn);
            && (ActiveValid(d, v, m, cfg.Active()) <==> ActiveValid(d, u, m, cfg.Active()))
            && (CapsuleValid(d, v, m, cfg.Recovery()) <==> CapsuleValid(d, u, m, cfg.Recovery()))
            && (ValidAt(d, v, m, cfg.Staging()) <==> ValidAt(d, u, m, cfg.Staging()))
            && forall skip: bool :: Promotable(d, v, m, cfg, skip) <==> Promotable(d, u, m, cfg, skip)
  {
    SameAtAll(d, u, p, svn, m, cfg.Active());
    SameAtAll(d, u, p, svn, m, cfg.Recovery());
    SameAtAll(d, u, p, svn, m, cfg.Recovery() + 256);
    SameAtAll(d, u, p, svn, m, cfg.Staging());
    hide ValidAt, SvnWritten, PfmValid, PbcValid, HashesMatch;
  }

  lemma SameDecisions(d: Device, u: Mem, v: Mem, m: Mem, cfg: FlashMap)
    requires IsPage(u) && IsPage(v) && LaidOut(cfg, |m|)
    requires ActiveValid(d, v, m, cfg.Active()) <==> ActiveValid(d, u, m, cfg.Active())
    requires CapsuleValid(d, v, m, cfg.Recovery()) <==> CapsuleValid(d, u, m, cfg.Recovery())
    requires forall skip: bool :: Promotable(d, v, m, cfg, skip) <==> Promotable(d, u, m, cfg, skip)
    ensures forall force: bool :: Workable(d, v, m, cfg, force) <==> Workable(d, u, m, cfg, force)
  {
    hide ActiveValid, CapsuleValid, Promotable, CanRecover, CanRebuild, CopyFits, PayloadAt, HoldsPayload;
  }

  lemma SameAtAll(d: Device, u: Mem, p: SvnPolicy, svn: nat, m: Mem, at: nat)
    requires IsPage(u)
    ensures ValidAt(d, SvnWritten(u, p, svn), m, at) <==> ValidAt(d, u, m, at)
    ensures ValidAt(d, u, m, at) ==> HoldsPayload(m, at)
  {
    if HoldsPayload(m, at) {
      SvnWritesKeepValidity(d, u, p, svn, PayloadAt(m, at));
    }
    hide SignatureValid, SvnWritten, HoldsPayload, PayloadAt;
  }

  // A capsule covers what it rebuilds: the regions its manifest hashes and, of every region it rebuilds,
  // the pages it has data for
  ghost predicate Covers(c: seq<Word>, cfg: FlashMap, words: nat) {
    Shaped(c, cfg.pfm, words) && CompWithinActive(LayoutOf(c), CapsuleRegions(c, StaticAndDynamic, cfg.stagingAddr))
  }

  // A capsule whose manifest is authentic and describes the capsule
  ghost predicate Honest(d: Device, u: Mem, c: seq<Word>, cfg: FlashMap, words: nat)
    requires IsPage(u)
  {
    Covers(c, cfg, words) && ManifestMatches(d, u, c)
  }

  // An active region rebuilt from a capsule that covers it authenticates exactly when the capsule's
  // manifest is authentic and describes the capsule
  lemma RebuiltActiveIsValidIff(d: Device, u: Mem, m: Mem, cfg: FlashMap)
    requires IsPage(u) && HoldsPayload(m, cfg.Recovery()) && Covers(PayloadAt(m, cfg.Recovery()), cfg, |m|)
    ensures ActiveValid(d, u, ActiveRebuilt(m, cfg), cfg.Active()) <==> Honest(d, u, PayloadAt(m, cfg.Recovery()), cfg, |m|)
  {
    var c := PayloadAt(m, cfg.Recovery());
    ShapedParts(c, cfg.pfm, |m|);
    hide ActiveValid, ManifestMatches, RebuiltFrom, PayloadAt, HoldsPayload, CompWithinActive, LayoutOf, SignedPfm, Readable, Shaped, DefinitionsEnd;
    RebuildAuthenticatesIff(d, u, c, StaticAndDynamic, cfg.stagingAddr, cfg.pfm, m);
  }

  lemma HonestCovers(d: Device, u: Mem, c: seq<Word>, cfg: FlashMap, words: nat)
    requires IsPage(u) && Honest(d, u, c, cfg, words)
    ensures Covers(c, cfg, words)
  {
    hide Covers;
  }

  // Rebuilding leaves the capsule alone that it reads
  lemma RebuildSparesCapsule(m: Mem, at: nat, c: seq<Word>, mode: Mode, staging: Word, pfm: nat)
    requires HoldsPayload(m, at) && c == PayloadAt(m, at) && mode.TakesStatic() && Usable(c, mode, staging, at, pfm, |m|)
    ensures Readable(c)
    ensures var r := RebuiltFrom(c, mode, staging, pfm, m); HoldsPayload(r, at) && PayloadAt(r, at) == c
  {
    AtItsPlace(m, at);
    assert WordsAt(m, at, c);
    UsableParts(c, mode, staging, at, pfm, m);
    hide *;
    var k, rs := LayoutOf(c), CapsuleRegions(c, mode, staging);
    CapsuleSurvives(c, k, rs, at, at + 520, |c| - 520, m);
    RebuiltInSteps(c, mode, staging, pfm, m);
    PfmCopiedApart(SignedPfm(c), pfm, RegionsImage(k, rs, m), at, c);
    SamePayloadAt(m, at, RebuiltFrom(c, mode, staging, pfm, m), at);
  }

  // Rebuilding from the recovery capsule leaves the recovery region alone
  lemma RebuildSparesRecovery(m: Mem, cfg: FlashMap)
    requires CanRecover(m, cfg)
    ensures var r := ActiveRebuilt(m, cfg);
            HoldsPayload(r, cfg.Recovery()) && PayloadAt(r, cfg.Recovery()) == PayloadAt(m, cfg.Recovery())
  {
    var c := PayloadAt(m, cfg.Recovery());
    RebuildReady(m, cfg);
    ModeTakes();
    hide *;
    RebuildSparesCapsule(m, cfg.Recovery(), c, StaticAndDynamic, cfg.stagingAddr, cfg.pfm);
  }

  lemma ModeTakes()
    ensures StaticAndDynamic.TakesStatic()
  {
  }

  lemma PfmCopiedApart(s: seq<Word>, pfm: nat, m: Mem, at: nat, data: seq<Word>)
    requires |s| <= 16384 && WordsAt(m, at, data) && 1024 * pfm + 16384 <= |m|
    requires at + |data| <= 1024 * pfm || 1024 * pfm + 16384 <= at
    ensures WordsAt(PfmCopied(s, pfm, m), at, data)
  {
    hide Nor;
    ErasedApart(m, pfm, pfm + 16, at, data);
    ProgrammedApart(ErasePages(m, pfm, pfm + 16), 1024 * pfm, s, at, |data|);
  }

  // ---------------------------------------------------------------- promotion and power loss

  // A promotion started again after each power loss and cut short after the given numbers of commands
  function Interrupted(m: Mem, trace: seq<Op>, cuts: seq<nat>): (r: Mem)
    requires forall i | 0 <= i < |cuts| :: cuts[i] <= |trace|
    ensures |r| == |m|
    decreases |cuts|
  {
    if cuts == [] then m
    else Interrupted(Run(m, trace[..cuts[0]]), trace, cuts[1..])
  }

  // Words from at up to end lie outside pages lo..hi-1
  predicate Clear(at: nat, end: nat, lo: nat, hi: nat) { end <= 1024 * lo || 1024 * hi <= at }

  // The active manifest, the words its walk reads and the regions it hashes lie outside pages lo..hi-1
  predicate ActiveClear(m: Mem, cfg: FlashMap, lo: nat, hi: nat) {
    var at := cfg.Active();
    && HoldsPayload(m, at) && Clear(at, at + |PayloadAt(m, at)|, lo, hi)
    && (HasBody(m, at) ==>
          && Clear(at, at + 264 + WalkLength(m[at + 264..]), lo, hi)
          && forall e | e in Definitions(m, at) :: RegionClear(e, lo, hi))
  }

  predicate RegionClear(e: Entry, lo: nat, hi: nat) { Hashed(e) ==> Clear(Start(e) / 4, End(e) / 4, lo, hi) }

  lemma ClearSlice(m: Mem, other: Mem, at: nat, end: nat, lo: nat, hi: nat)
    requires SameOutside(other, m, lo, hi) && Clear(at, end, lo, hi) && at <= end <= |m|
    ensures other[at..end] == m[at..end]
  {
  }

  lemma ClearPayload(m: Mem, other: Mem, at: nat, lo: nat, hi: nat)
    requires SameOutside(other, m, lo, hi) && HoldsPayload(m, at) && Clear(at, at + |PayloadAt(m, at)|, lo, hi)
    ensures HoldsPayload(other, at) && PayloadAt(other, at) == PayloadAt(m, at)
  {
    AtItsPlace(m, at);
    ClearSlice(m, other, at, at + |PayloadAt(m, at)|, lo, hi);
    assert WordsAt(other, at, PayloadAt(m, at)) by { assert |other| == |m|; }
    hide SameOutside, HoldsPayload, PayloadAt;
    SamePayloadAt(m, at, other, at);
  }

  lemma ClearRegion(d: Device, m: Mem, other: Mem, e: Entry, lo: nat, hi: nat)
    requires SameOutside(other, m, lo, hi) && EntryValid(d, m, e)
    requires RegionClear(e, lo, hi)
    ensures EntryValid(d, other, e)
  {
    if Hashed(e) {
      assert RegionValid(d, m, e);
      var a, b := Start(e) / 4, End(e) / 4;
      assert a <= b <= |m|;
      ClearSlice(m, other, a, b, lo, hi);
    }
    hide Start, End, RuleValid, Hashed, SameOutside, Clear;
    assert |other| == |m| by { SameLength(m, other, lo, hi); }
  }

  lemma SameLength(m: Mem, other: Mem, lo: nat, hi: nat)
    requires SameOutside(other, m, lo, hi)
    ensures |other| == |m|
  {
  }

  // The walk over the active manifest visits the same definitions
  lemma ClearWalk(m: Mem, other: Mem, at: nat, lo: nat, hi: nat)
    requires SameOutside(other, m, lo, hi) && HasBody(m, at) && Clear(at, at + 264 + WalkLength(m[at + 264..]), lo, hi)
    ensures HasBody(other, at) && Definitions(other, at) == Definitions(m, at)
    ensures at + 256 < |m| == |other| && other[at + 256] == m[at + 256]
  {
    var body := m[at + 264..];
    var n := WalkLength(body);
    SameLength(m, other, lo, hi);
    ClearSlice(m, other, at, at + 264 + n, lo, hi);
    WordIn(m, other, at, at + 264 + n, 256);
    PartIn(m, other, at, n);
    hide *;
    SameWalk(m[at + 264..], other[at + 264..]);
    SameBody(m, other, at);
  }

  lemma SameBody(m: Mem, other: Mem, at: nat)
    requires at + 264 <= |m| && at + 264 <= |other| && HasBody(m, at) && Terminated(m[at + 264..])
    requires Terminated(other[at + 264..]) && Parse(other[at + 264..]) == Parse(m[at + 264..])
    ensures HasBody(other, at) && Definitions(other, at) == Definitions(m, at)
  {
    hide Terminated, Parse;
  }

  lemma WordIn(m: Mem, other: Mem, at: nat, end: nat, o: nat)
    requires at + o < end <= |m| && |other| == |m| && other[at..end] == m[at..end]
    ensures other[at + o] == m[at + o]
  {
    assert other[at..end][o] == m[at..end][o];
  }

  lemma PartIn(m: Mem, other: Mem, at: nat, n: nat)
    requires at + 264 + n <= |m| && |other| == |m| && other[at..at + 264 + n] == m[at..at + 264 + n]
    ensures other[at + 264..][..n] == m[at + 264..][..n]
  {
    var end := at + 264 + n;
    assert other[at + 264..][..n] == other[at..end][264..] && m[at + 264..][..n] == m[at..end][264..];
  }

  // What happens inside pages lo..hi-1 does not invalidate the active region
  lemma ActiveSurvives(d: Device, u: Mem, m: Mem, other: Mem, cfg: FlashMap, lo: nat, hi: nat)
    requires IsPage(u) && ActiveValid(d, u, m, cfg.Active()) && ActiveClear(m, cfg, lo, hi) && SameOutside(other, m, lo, hi)
    ensures ActiveValid(d, u, other, cfg.Active())
  {
    hide *;
    var at := cfg.Active();
    ActiveParts(d, u, m, cfg, lo, hi);
    ClearPayload(m, other, at, lo, hi);
    ClearWalk(m, other, at, lo, hi);
    forall e | e in Definitions(m, at) ensures EntryValid(d, other, e) {
      ClearRegion(d, m, other, e, lo, hi);
    }
    SameActive(d, u, m, other, at);
  }

  lemma ActiveParts(d: Device, u: Mem, m: Mem, cfg: FlashMap, lo: nat, hi: nat)
    requires IsPage(u) && ActiveValid(d, u, m, cfg.Active()) && ActiveClear(m, cfg, lo, hi)
    ensures var at := cfg.Active();
            && HasBody(m, at) && at + 264 <= |m| && Terminated(m[at + 264..]) && HoldsPayload(m, at)
            && Clear(at, at + |PayloadAt(m, at)|, lo, hi) && Clear(at, at + 264 + WalkLength(m[at + 264..]), lo, hi)
            && forall e | e in Definitions(m, at) :: EntryValid(d, m, e) && RegionClear(e, lo, hi)
  {
    hide SignatureValid, Definitions, EntryValid, HoldsPayload, PayloadAt, Clear, RegionClear, WalkLength, Terminated;
  }

  lemma SameActive(d: Device, u: Mem, m: Mem, other: Mem, at: nat)
    requires IsPage(u) && ActiveValid(d, u, m, at) && HoldsPayload(m, at)
    requires HoldsPayload(other, at) && PayloadAt(other, at) == PayloadAt(m, at)
    requires HasBody(m, at) && HasBody(other, at) && Definitions(other, at) == Definitions(m, at)
    requires at + 256 < |m| && at + 256 < |other| && other[at + 256] == m[at + 256]
    requires forall e | e in Definitions(m, at) :: EntryValid(d, other, e)
    ensures ActiveValid(d, u, other, at)
  {
    assert at + 264 <= |other|;
    hide SignatureValid, Definitions, EntryValid, HoldsPayload, PayloadAt, HasBody;
  }

  // While a promotion is under way: outside the recovery pages the flash is as it was
  ghost predicate Underway(d: Device, u: Mem, m: Mem, cfg: FlashMap)
    requires IsPage(u)
  {
    && LaidOut(cfg, |m|) && ActiveValid(d, u, m, cfg.Active()) && ValidAt(d, u, m, cfg.Staging())
    && HoldsPayload(m, cfg.Staging()) && CopyFits(m, cfg) && HashesMatch(m, cfg)
    && ActiveClear(m, cfg, cfg.recovery, cfg.recovery + PagesUpTo(SignedPayloadSize(m, cfg.Staging())))
  }

  lemma StagedCopy(d: Device, u: Mem, m: Mem, cfg: FlashMap)
    requires IsPage(u) && Underway(d, u, m, cfg)
    ensures LaidOut(cfg, |m|) && HoldsPayload(m, cfg.Staging())
    ensures var src := cfg.Staging(); var n, data := SignedPayloadSize(m, src), PayloadAt(m, src);
            var hi := cfg.recovery + PagesUpTo(n);
            && CanCopy(m, cfg.recovery, hi, src, n, data) && PromotionTrace(m, cfg) == MemcpyTrace(cfg.recovery, n, data)
            && SignatureValid(d, u, data) && |data| == 256 + PcLength(data) / 4 && |data| > 256
  {
    var src := cfg.Staging();
    assert HoldsPayload(m, src) && SignatureValid(d, u, PayloadAt(m, src)) && MemcpyFits(|m|, cfg.recovery, src, SignedPayloadSize(m, src));
    PayloadToCopy(d, u, m, cfg.recovery, src);
    PayloadLength(m, src);
    AcceptedLength(d, u, PayloadAt(m, src));
    assert PromotionTrace(m, cfg) == MemcpyTrace(cfg.recovery, SignedPayloadSize(m, src), PayloadAt(m, src));
    hide *;
    InHeader(SignedPayloadSize(m, src), PcLength(PayloadAt(m, src)));
  }

  // The staged capsule and the match with the active image are as they were
  lemma UnderwaySame(d: Device, u: Mem, m: Mem, x: Mem, cfg: FlashMap, hi: nat)
    requires IsPage(u) && Underway(d, u, m, cfg) && HoldsPayload(m, cfg.Staging())
    requires hi == cfg.recovery + PagesUpTo(SignedPayloadSize(m, cfg.Staging())) && SameOutside(x, m, cfg.recovery, hi)
    ensures LaidOut(cfg, |x|) && ActiveValid(d, u, x, cfg.Active()) && HashesMatch(x, cfg)
    ensures HoldsPayload(x, cfg.Staging()) && PayloadAt(x, cfg.Staging()) == PayloadAt(m, cfg.Staging())
    ensures ValidAt(d, u, x, cfg.Staging()) && CopyFits(x, cfg) && PromotionTrace(x, cfg) == PromotionTrace(m, cfg)
  {
    UnderwayParts(d, u, m, cfg, hi);
    hide *;
    SameLength(m, x, cfg.recovery, hi);
    ActiveSurvives(d, u, m, x, cfg, cfg.recovery, hi);
    ClearPayload(m, x, cfg.Staging(), cfg.recovery, hi);
    SameHashes(m, x, cfg, hi);
    UnderwayAgain(d, u, m, x, cfg);
  }

  lemma SameHashes(m: Mem, x: Mem, cfg: FlashMap, hi: nat)
    requires SameOutside(x, m, cfg.recovery, hi) && LaidOut(cfg, |m|) && |x| == |m| && HashesMatch(m, cfg)
    requires Clear(cfg.Active() + 4, cfg.Active() + 12, cfg.recovery, hi) && cfg.Active() + 12 <= |m|
    requires Clear(cfg.Staging() + 260, cfg.Staging() + 268, cfg.recovery, hi) && cfg.Staging() + 268 <= |m|
    ensures HashesMatch(x, cfg)
  {
    hide SameOutside, Clear;
    ClearSlice(m, x, cfg.Active() + 4, cfg.Active() + 12, cfg.recovery, hi);
    ClearSlice(m, x, cfg.Staging() + 260, cfg.Staging() + 268, cfg.recovery, hi);
  }

  lemma UnderwayParts(d: Device, u: Mem, m: Mem, cfg: FlashMap, hi: nat)
    requires IsPage(u) && Underway(d, u, m, cfg) && HoldsPayload(m, cfg.Staging())
    requires hi == cfg.recovery + PagesUpTo(SignedPayloadSize(m, cfg.Staging()))
    ensures LaidOut(cfg, |m|) && ActiveValid(d, u, m, cfg.Active()) && ActiveClear(m, cfg, cfg.recovery, hi) && HashesMatch(m, cfg)
    ensures Clear(cfg.Staging(), cfg.Staging() + |PayloadAt(m, cfg.Staging())|, cfg.recovery, hi)
    ensures Clear(cfg.Active() + 4, cfg.Active() + 12, cfg.recovery, hi) && cfg.Active() + 12 <= |m|
    ensures Clear(cfg.Staging() + 260, cfg.Staging() + 268, cfg.recovery, hi) && cfg.Staging() + 268 <= |m|
  {
    var src, active := cfg.Staging(), cfg.Active();
    var words := |PayloadAt(m, src)|;
    StagedCopy(d, u, m, cfg);
    UnderwayHas(d, u, m, cfg, hi);
    AcceptedLength(d, u, PayloadAt(m, src));
    StagedClear(m, cfg, hi, SignedPayloadSize(m, src), PayloadAt(m, src));
    hide *;
    ManifestClear(m, cfg, cfg.recovery, hi);
    NarrowClear(active, active + 256, active + 4, active + 12, cfg.recovery, hi);
    NarrowClear(src, src + words, src + 260, src + 268, cfg.recovery, hi);
  }

  lemma UnderwayHas(d: Device, u: Mem, m: Mem, cfg: FlashMap, hi: nat)
    requires IsPage(u) && Underway(d, u, m, cfg) && HoldsPayload(m, cfg.Staging())
    requires hi == cfg.recovery + PagesUpTo(SignedPayloadSize(m, cfg.Staging()))
    ensures LaidOut(cfg, |m|) && ActiveValid(d, u, m, cfg.Active()) && ActiveClear(m, cfg, cfg.recovery, hi) && HashesMatch(m, cfg)
    ensures cfg.Active() + 12 <= |m| && cfg.Staging() + 268 <= |m|
  {
    hide ActiveValid, ActiveClear, HashesMatch, ValidAt, CopyFits, PagesUpTo, SignedPayloadSize;
  }

  lemma StagedClear(m: Mem, cfg: FlashMap, hi: nat, n: nat, data: seq<Word>)
    requires CanCopy(m, cfg.recovery, hi, cfg.Staging(), n, data)
    ensures Clear(cfg.Staging(), cfg.Staging() + |data|, cfg.recovery, hi)
  {
    hide PagesUpTo, WordsAt;
  }

  lemma NarrowClear(at: nat, end: nat, a: nat, b: nat, lo: nat, hi: nat)
    requires Clear(at, end, lo, hi) && at <= a <= b <= end
    ensures Clear(a, b, lo, hi)
  {
  }

  lemma ManifestClear(m: Mem, cfg: FlashMap, lo: nat, hi: nat)
    requires ActiveClear(m, cfg, lo, hi)
    ensures HoldsPayload(m, cfg.Active()) && Clear(cfg.Active(), cfg.Active() + 256, lo, hi)
  {
    assert |PayloadAt(m, cfg.Active())| >= 256;
    hide PayloadAt, HasBody, Definitions, WalkLength, RegionClear;
  }

  lemma UnderwayAgain(d: Device, u: Mem, m: Mem, x: Mem, cfg: FlashMap)
    requires IsPage(u) && Underway(d, u, m, cfg) && |x| == |m| && LaidOut(cfg, |m|) && HoldsPayload(m, cfg.Staging())
    requires HoldsPayload(x, cfg.Staging()) && PayloadAt(x, cfg.Staging()) == PayloadAt(m, cfg.Staging())
    ensures ValidAt(d, u, x, cfg.Staging()) && CopyFits(x, cfg)
    ensures PromotionTrace(x, cfg) == PromotionTrace(m, cfg)
  {
    PayloadLength(m, cfg.Staging());
    PayloadLength(x, cfg.Staging());
    hide SignatureValid, ActiveValid, ActiveClear, MemcpyFits, MemcpyTrace, SignedPayloadSize, PcLength, PayloadAt;
  }

  // The flash after at least one power loss: some commands of the copy were carried out
  ghost predicate CutShort(x: Mem, m: Mem, cfg: FlashMap)
    requires HoldsPayload(m, cfg.Staging())
  {
    exists y: Mem, k: nat :: CutFrom(x, y, k, m, cfg)
  }

  ghost predicate CutFrom(x: Mem, y: Mem, k: nat, m: Mem, cfg: FlashMap)
    requires HoldsPayload(m, cfg.Staging())
  {
    var t := PromotionTrace(m, cfg);
    && SameOutside(y, m, cfg.recovery, cfg.recovery + PagesUpTo(SignedPayloadSize(m, cfg.Staging())))
    && 0 < k <= |t| && x == Run(y, t[..k])
  }

  lemma SameAsItself(m: Mem, lo: nat, hi: nat)
    ensures SameOutside(m, m, lo, hi)
  {
  }

  lemma CutSame(d: Device, u: Mem, x: Mem, y: Mem, k: nat, m: Mem, cfg: FlashMap)
    requires IsPage(u) && Underway(d, u, m, cfg) && HoldsPayload(m, cfg.Staging()) && CutFrom(x, y, k, m, cfg)
    ensures SameOutside(x, m, cfg.recovery, cfg.recovery + PagesUpTo(SignedPayloadSize(m, cfg.Staging())))
  {
    StagedCopy(d, u, m, cfg);
    var n, data := SignedPayloadSize(m, cfg.Staging()), PayloadAt(m, cfg.Staging());
    var hi := cfg.recovery + PagesUpTo(n);
    assert n == 4 * |data| && n % 16 == 0;
    FourFours(n, |data|);
    hide Run, MemcpyTrace, PagesUpTo, SameOutside, SignatureValid, Underway, SignedPayloadSize, PayloadAt, PcLength, CanCopy;
    CutOutside(y, cfg.recovery, hi, n, data, k);
    OutsideTwice(x, y, m, cfg.recovery, hi);
  }

  // The recovery region holds the complete staged capsule, or the capsule it held at first
  predicate OldOrNew(d: Device, u: Mem, m: Mem, r: Mem, cfg: FlashMap)
    requires IsPage(u) && HoldsPayload(m, cfg.Staging())
  {
    && HoldsPayload(r, cfg.Recovery())
    && (PayloadAt(r, cfg.Recovery()) == PayloadAt(m, cfg.Staging())
        || (CapsuleValid(d, u, m, cfg.Recovery()) && PayloadAt(r, cfg.Recovery()) == PayloadAt(m, cfg.Recovery())))
  }

  // A recovery capsule that passes after a power loss is complete
  lemma PassingIsOldOrNew(d: Device, u: Mem, m: Mem, x: Mem, cfg: FlashMap)
    requires IsPage(u) && Injective(d.sha) && Underway(d, u, m, cfg) && HoldsPayload(m, cfg.Staging())
    requires (x == m || CutShort(x, m, cfg)) && CapsuleValid(d, u, x, cfg.Recovery())
    ensures OldOrNew(d, u, m, x, cfg)
  {
    var n, data := SignedPayloadSize(m, cfg.Staging()), PayloadAt(m, cfg.Staging());
    StagedCopy(d, u, m, cfg);
    assert HoldsPayload(x, cfg.Recovery());
    if x != m {
      var y: Mem, k: nat :| CutFrom(x, y, k, m, cfg);
      assert n == 4 * |data| && n % 16 == 0 && cfg.Recovery() + |data| <= |m|;
      FourFours(n, |data|);
      SameLength(m, y, cfg.recovery, cfg.recovery + PagesUpTo(n));
      assert PromotionTrace(m, cfg) == MemcpyTrace(cfg.recovery, n, data);
      CutCopyPassesOnlyComplete(d, u, y, cfg.recovery, n, data, k);
    }
    hide *;
  }

  // One complete authentication from such a state
  lemma RecoversOldOrNew(d: Device, u: Mem, m: Mem, x: Mem, cfg: FlashMap, force: bool)
    requires IsPage(u) && Injective(d.sha) && Underway(d, u, m, cfg) && LaidOut(cfg, |m|) && HoldsPayload(m, cfg.Staging())
    requires Trusted(d, u, m, cfg) && (x == m || CutShort(x, m, cfg))
    ensures |x| == |m| && LaidOut(cfg, |x|)
    ensures var o := Authenticate(d, u, x, cfg, force); o.active && !o.allFailed && OldOrNew(d, u, m, o.mem, cfg)
  {
    assert cfg.Staging() + 1 < |m| && ValidAt(d, u, m, cfg.Staging());
    hide *;
    var hi := cfg.recovery + PagesUpTo(SignedPayloadSize(m, cfg.Staging()));
    StillOutside(d, u, m, x, cfg);
    UnderwaySame(d, u, m, x, cfg, hi);
    SameLength(m, x, cfg.recovery, hi);
    AuthenticateCases(d, u, x, cfg, force);
    PromotableWhen(d, u, x, cfg);
    if CapsuleValid(d, u, x, cfg.Recovery()) {
      PassingIsOldOrNew(d, u, m, x, cfg);
      RebuildKeepsOldOrNew(d, u, m, x, cfg);
    } else {
      PromotedCapsule(d, u, x, cfg);
      var r := Promoted(x, cfg);
      NewIsOldOrNew(d, u, m, r, cfg);
      RebuildKeepsOldOrNew(d, u, m, r, cfg);
    }
  }

  lemma PromotableWhen(d: Device, u: Mem, x: Mem, cfg: FlashMap)
    requires IsPage(u) && LaidOut(cfg, |x|) && ValidAt(d, u, x, cfg.Staging()) && HashesMatch(x, cfg)
    ensures forall skip: bool :: Promotable(d, u, x, cfg, skip)
  {
    hide ValidAt, HashesMatch;
  }

  lemma NewIsOldOrNew(d: Device, u: Mem, m: Mem, r: Mem, cfg: FlashMap)
    requires IsPage(u) && HoldsPayload(m, cfg.Staging()) && HoldsPayload(r, cfg.Recovery())
    requires PayloadAt(r, cfg.Recovery()) == PayloadAt(m, cfg.Staging())
    ensures OldOrNew(d, u, m, r, cfg)
  {
    hide HoldsPayload, PayloadAt, CapsuleValid;
  }

  // A rebuild of the active region, if there is one, leaves the recovery region as it is
  lemma RebuildKeepsOldOrNew(d: Device, u: Mem, m: Mem, r: Mem, cfg: FlashMap)
    requires IsPage(u) && LaidOut(cfg, |m|) && HoldsPayload(m, cfg.Staging()) && |r| == |m|
    requires Trusted(d, u, m, cfg) && ValidAt(d, u, m, cfg.Staging()) && OldOrNew(d, u, m, r, cfg)
    ensures OldOrNew(d, u, m, ActiveRebuilt(r, cfg), cfg)
  {
    assert HoldsPayload(r, cfg.Recovery()) && CanRebuild(PayloadAt(r, cfg.Recovery()), cfg, |m|);
    hide CanRebuild, CapsuleValid, ActiveRebuilt, PayloadAt, HoldsPayload, ValidAt, Trusted;
    RebuildSparesRecovery(r, cfg);
  }

  // Firmware promotion survives power loss: however often the copy is cut short and started again,
  // the next complete T-1 entry finds or makes the recovery region whole, with the old capsule or
  // the staged one, and lets the device boot
  lemma {:induction false} PromotionSurvivesPowerLoss(d: Device, u: Mem, m: Mem, x: Mem, cfg: FlashMap, cuts: seq<nat>, force: bool)
    requires IsPage(u) && Injective(d.sha) && Underway(d, u, m, cfg) && LaidOut(cfg, |m|) && HoldsPayload(m, cfg.Staging())
    requires Trusted(d, u, m, cfg) && (x == m || CutShort(x, m, cfg))
    requires forall i | 0 <= i < |cuts| :: cuts[i] <= |PromotionTrace(m, cfg)|
    ensures |x| == |m| && LaidOut(cfg, |x|)
    ensures var o := Authenticate(d, u, Interrupted(x, PromotionTrace(m, cfg), cuts), cfg, force);
            o.active && !o.allFailed && OldOrNew(d, u, m, o.mem, cfg)
    decreases |cuts|
  {
    hide *;
    InterruptedStep(x, PromotionTrace(m, cfg), cuts);
    if cuts == [] {
      RecoversOldOrNew(d, u, m, x, cfg, force);
    } else {
      NextCut(d, u, m, x, cfg, cuts[0]);
      PromotionSurvivesPowerLoss(d, u, m, Run(x, PromotionTrace(m, cfg)[..cuts[0]]), cfg, cuts[1..], force);
    }
  }

  lemma InterruptedStep(m: Mem, t: seq<Op>, cuts: seq<nat>)
    requires forall i | 0 <= i < |cuts| :: cuts[i] <= |t|
    ensures Interrupted(m, t, cuts) == if cuts == [] then m else Interrupted(Run(m, t[..cuts[0]]), t, cuts[1..])
  {
    hide Run;
  }

  lemma NextCut(d: Device, u: Mem, m: Mem, x: Mem, cfg: FlashMap, k: nat)
    requires IsPage(u) && Underway(d, u, m, cfg) && HoldsPayload(m, cfg.Staging()) && k <= |PromotionTrace(m, cfg)|
    requires x == m || CutShort(x, m, cfg)
    ensures var next := Run(x, PromotionTrace(m, cfg)[..k]); next == m || CutShort(next, m, cfg)
  {
    hide *;
    StillOutside(d, u, m, x, cfg);
    if k == 0 {
      NothingDone(x, PromotionTrace(m, cfg));
    } else {
      CutAgain(x, k, m, cfg);
    }
  }

  lemma CutAgain(x: Mem, k: nat, m: Mem, cfg: FlashMap)
    requires HoldsPayload(m, cfg.Staging()) && 0 < k <= |PromotionTrace(m, cfg)|
    requires SameOutside(x, m, cfg.recovery, cfg.recovery + PagesUpTo(SignedPayloadSize(m, cfg.Staging())))
    ensures CutShort(Run(x, PromotionTrace(m, cfg)[..k]), m, cfg)
  {
    hide SameOutside, PromotionTrace, Run, PagesUpTo, SignedPayloadSize, HoldsPayload;
    assert CutFrom(Run(x, PromotionTrace(m, cfg)[..k]), x, k, m, cfg);
  }

  lemma NothingDone(x: Mem, t: seq<Op>)
    ensures Run(x, t[..0]) == x
  {
    assert t[..0] == [];
  }

  lemma StillOutside(d: Device, u: Mem, m: Mem, x: Mem, cfg: FlashMap)
    requires IsPage(u) && Underway(d, u, m, cfg) && HoldsPayload(m, cfg.Staging()) && (x == m || CutShort(x, m, cfg))
    ensures cfg.Staging() + 1 < |m|
    ensures SameOutside(x, m, cfg.recovery, cfg.recovery + PagesUpTo(SignedPayloadSize(m, cfg.Staging())))
  {
    SameAsItself(m, cfg.recovery, cfg.recovery + PagesUpTo(SignedPayloadSize(m, cfg.Staging())));
    if x != m {
      var y: Mem, j: nat :| CutFrom(x, y, j, m, cfg);
      CutSame(d, u, x, y, j, m, cfg);
    }
    hide *;
  }

  // ---------------------------------------------------------------- what is released

  // What is taken for granted of signed contents when the outcome is to authenticate again: an
  // authentic capsule has an authentic manifest that describes it, and the copy of a staged one
  // stays clear of the active image
  ghost predicate Truthful(d: Device, u: Mem, m: Mem, cfg: FlashMap)
    requires IsPage(u) && LaidOut(cfg, |m|)
  {
    && (CapsuleValid(d, u, m, cfg.Recovery()) ==> Honest(d, u, PayloadAt(m, cfg.Recovery()), cfg, |m|))
    && (ValidAt(d, u, m, cfg.Staging()) ==>
          && CopyFits(m, cfg) && Honest(d, u, PayloadAt(m, cfg.Staging()), cfg, |m|)
          && (ActiveValid(d, u, m, cfg.Active()) ==>
                ActiveClear(m, cfg, cfg.recovery, cfg.recovery + PagesUpTo(SignedPayloadSize(m, cfg.Staging())))))
  }

  lemma TruthfulParts(d: Device, u: Mem, m: Mem, cfg: FlashMap)
    requires IsPage(u) && LaidOut(cfg, |m|) && Truthful(d, u, m, cfg)
    ensures CapsuleValid(d, u, m, cfg.Recovery()) ==>
              HoldsPayload(m, cfg.Recovery()) && Honest(d, u, PayloadAt(m, cfg.Recovery()), cfg, |m|)
    ensures ValidAt(d, u, m, cfg.Staging()) ==>
              && HoldsPayload(m, cfg.Staging()) && CopyFits(m, cfg) && Honest(d, u, PayloadAt(m, cfg.Staging()), cfg, |m|)
              && (ActiveValid(d, u, m, cfg.Active()) ==>
                    ActiveClear(m, cfg, cfg.recovery, cfg.recovery + PagesUpTo(SignedPayloadSize(m, cfg.Staging()))))
    ensures forall skip: bool :: Promotable(d, u, m, cfg, skip) ==> ValidAt(d, u, m, cfg.Staging())
    ensures forall v: Mem :: IsPage(v) <==> |v| == 59
  {
    hide SignatureValid, Honest, CopyFits, ActiveValid, ActiveClear, PbcValid, HashesMatch;
  }

  // A minimum SVN that is raised invalidates no active region
  lemma SvnWriteKeepsActive(d: Device, u: Mem, p: SvnPolicy, svn: nat, m: Mem, at: nat)
    requires IsPage(u) && ActiveValid(d, u, m, at)
    ensures ActiveValid(d, SvnWritten(u, p, svn), m, at)
  {
    assert HoldsPayload(m, at) && SignatureValid(d, u, PayloadAt(m, at));
    SvnWritesKeepValidity(d, u, p, svn, PayloadAt(m, at));
    hide SignatureValid, PfmValid, SvnWritten, HoldsPayload, PayloadAt;
  }

  // What an authentication found or made valid authenticates
  lemma AuthenticatedImageIsValid(d: Device, u: Mem, m: Mem, cfg: FlashMap, force: bool)
    requires IsPage(u) && LaidOut(cfg, |m|) && Truthful(d, u, m, cfg)
    ensures var o := Authenticate(d, u, m, cfg, force);
            o.active ==> ActiveValid(d, o.page, o.mem, cfg.Active())
  {
    hide *;
    AuthenticateCases(d, u, m, cfg, force);
    TruthfulParts(d, u, m, cfg);
    var active, recovery := ActiveValid(d, u, m, cfg.Active()), CapsuleValid(d, u, m, cfg.Recovery());
    if recovery {
      HonestCovers(d, u, PayloadAt(m, cfg.Recovery()), cfg, |m|);
      RebuiltActiveIsValidIff(d, u, m, cfg);
    } else if Promotable(d, u, m, cfg, !active) {
      var mem := Promoted(m, cfg);
      PromotedImageIsValid(d, u, m, cfg, mem, force || !active, PfmSvn(mem, cfg.Staging()));
    }
  }

  lemma PromotedImageIsValid(d: Device, u: Mem, m: Mem, cfg: FlashMap, mem: Mem, rebuild: bool, svn: nat)
    requires IsPage(u) && LaidOut(cfg, |m|) && Truthful(d, u, m, cfg) && ValidAt(d, u, m, cfg.Staging())
    requires cfg.Staging() + 1 < |m| && HoldsPayload(m, cfg.Staging()) && mem == Promoted(m, cfg) && (rebuild || ActiveValid(d, u, m, cfg.Active()))
    ensures ActiveValid(d, SvnWritten(u, cfg.policy, svn), if rebuild then ActiveRebuilt(mem, cfg) else mem, cfg.Active())
  {
    hide *;
    TruthfulParts(d, u, m, cfg);
    PromotedCapsule(d, u, m, cfg);
    if rebuild {
      PromotedThenRebuilt(d, u, m, mem, cfg);
      SvnWriteKeepsActive(d, u, cfg.policy, svn, ActiveRebuilt(mem, cfg), cfg.Active());
    } else {
      ActiveSurvives(d, u, m, mem, cfg, cfg.recovery, cfg.recovery + PagesUpTo(SignedPayloadSize(m, cfg.Staging())));
      SvnWriteKeepsActive(d, u, cfg.policy, svn, mem, cfg.Active());
    }
  }

  lemma PromotedThenRebuilt(d: Device, u: Mem, m: Mem, mem: Mem, cfg: FlashMap)
    requires IsPage(u) && LaidOut(cfg, |m|) && |mem| == |m| && HoldsPayload(m, cfg.Staging())
    requires HoldsPayload(mem, cfg.Recovery()) && PayloadAt(mem, cfg.Recovery()) == PayloadAt(m, cfg.Staging())
    requires Honest(d, u, PayloadAt(m, cfg.Staging()), cfg, |m|)
    ensures ActiveValid(d, u, ActiveRebuilt(mem, cfg), cfg.Active())
  {
    HonestCovers(d, u, PayloadAt(m, cfg.Staging()), cfg, |m|);
    hide *;
    RebuiltActiveIsValidIff(d, u, mem, cfg);
  }
}
