/**
 The recovery matrix (fw/code/inc/flash_validation.h), row by row and word by word: what one authentication
 leaves in each combination of good and bad regions, and what a copied capsule leaves in a flash.
 */
module RecoveryMatrix {
  import opened NorFlash
  import opened SpiRwUtils
  import opened Ufm
  import opened Authentication
  import opened Pfm
  import opened Decompression
  import opened Rebuild
  import opened PfmValidation
  import opened CapsuleValidation
  import opened FlashValidation

  // ---------------------------------------------------------------- copies of payloads

  // What becomes of word j when the words c are copied to a page: they start there, the rest of the last page
  // is erased, and other pages are as before
  function CopyOf(c: seq<Word>, page: nat, j: nat, before: Word): Word {
    if page <= j / 1024 < page + (|c| + 1023) / 1024 then (if j - 1024 * page < |c| then c[j - 1024 * page] else ERASED) else before
  }

  lemma CopiedWord(d: Device, u: Mem, m: Mem, page: nat, src: nat, j: nat)
    requires IsPage(u) && ValidAt(d, u, m, src) && j < |m|
    requires MemcpyFits(|m|, page, src, SignedPayloadSize(m, src))
    ensures var r := Run(m, MemcpyTrace(page, SignedPayloadSize(m, src), PayloadAt(m, src)));
            |r| == |m| && r[j] == CopyOf(PayloadAt(m, src), page, j, m[j])
  {
    StartsInside(d, u, m, src);
    hide *;
    PayloadToCopy(d, u, m, page, src);
    WrittenWord(m, page, src, SignedPayloadSize(m, src), PayloadAt(m, src), j);
  }

  lemma StartsInside(d: Device, u: Mem, m: Mem, at: nat)
    requires IsPage(u) && ValidAt(d, u, m, at)
    ensures at + 1 < |m| && HoldsPayload(m, at)
  {
    hide SignatureValid, PayloadAt;
  }

  lemma WrittenWord(m: Mem, page: nat, src: nat, n: nat, c: seq<Word>, j: nat)
    requires CanCopy(m, page, page + PagesUpTo(n), src, n, c) && j < |m|
    ensures var r := Run(m, MemcpyTrace(page, n, c)); |r| == |m| && r[j] == CopyOf(c, page, j, m[j])
  {
    CopyExact(m, page, page + PagesUpTo(n), n, c);
    RewrittenWord(m, page, n, c, j);
    hide *;
  }

  lemma RewrittenWord(m: Mem, page: nat, n: nat, c: seq<Word>, j: nat)
    requires n == 4 * |c| && j < |m| && |c| <= 1024 * PagesUpTo(n)
    ensures Rewritten(m, page, page + PagesUpTo(n), 1024 * page, c)[j] == CopyOf(c, page, j, m[j])
  {
    assert PagesUpTo(n) == (|c| + 1023) / 1024;
    if 1024 * page <= j < 1024 * page + |c| {
      assert page <= j / 1024 < page + PagesUpTo(n);
    }
    if page <= j / 1024 {
      assert 1024 * page <= j;
    }
  }

  // ---------------------------------------------------------------- what hashes say

  // Two authentic manifests have the same hash exactly when they are the same
  lemma HashesMatchIff(d: Device, u: Mem, m: Mem, cfg: FlashMap)
    requires IsPage(u) && LaidOut(cfg, |m|) && Injective(d.sha)
    requires ValidAt(d, u, m, 1024 * cfg.pfm) && ValidAt(d, u, m, 1024 * cfg.staging + 256)
    ensures HashesMatch(m, cfg)
       <==> PayloadAt(m, 1024 * cfg.pfm)[256..] == PayloadAt(m, 1024 * cfg.staging + 256)[256..]
  {
    hide *;
    HashIs(d, u, m, 1024 * cfg.pfm);
    HashIs(d, u, m, 1024 * cfg.staging + 256);
    var a, c := PayloadAt(m, 1024 * cfg.pfm), PayloadAt(m, 1024 * cfg.staging + 256);
    SameHashIs(m, cfg);
    HashPlaces(m, cfg);
    if HashesMatch(m, cfg) {
      SameHash(d, a[256..], c[256..]);
    }
  }

  lemma HashPlaces(m: Mem, cfg: FlashMap)
    requires LaidOut(cfg, |m|)
    ensures 1024 * cfg.pfm + 12 <= |m| && 1024 * cfg.staging + 268 <= |m|
    ensures SameManifestHash(m, cfg)
       <==> m[1024 * cfg.pfm + 4..1024 * cfg.pfm + 12] == m[1024 * cfg.staging + 260..1024 * cfg.staging + 268]
  {
  }

  lemma HashIs(d: Device, u: Mem, m: Mem, at: nat)
    requires IsPage(u) && ValidAt(d, u, m, at)
    ensures HoldsPayload(m, at) && |PayloadAt(m, at)| >= 256 && at + 12 <= |m| && d.sha(PayloadAt(m, at)[256..]) == m[at + 4..at + 12]
  {
    ValidStart(d, u, m, at);
    LongEnough(m, at);
    hide *;
    Block0Hash(d, u, PayloadAt(m, at));
    HashPlace(m, at, PayloadAt(m, at));
  }

  lemma LongEnough(m: Mem, at: nat)
    requires HoldsPayload(m, at)
    ensures |PayloadAt(m, at)| >= 256
  {
  }

  lemma HashPlace(m: Mem, at: nat, c: seq<Word>)
    requires HoldsPayload(m, at) && c == PayloadAt(m, at) && |c| >= 256
    ensures at + 12 <= |m| && c[4..12] == m[at + 4..at + 12]
  {
    assert forall k | 0 <= k < 8 :: c[4..12][k] == m[at + 4..at + 12][k];
  }

  // ---------------------------------------------------------------- the rows

  // The three regions of a flash: the active one authenticates, the recovery capsule does, the staged payload
  // has a good signature
  datatype Regions = Regions(active: bool, recovery: bool, staging: bool)

  ghost predicate InState(d: Device, u: Mem, m: Mem, cfg: FlashMap, x: Regions) {
    && IsPage(u) && LaidOut(cfg, |m|)
    && (x.active <==> ActiveValid(d, u, m, 1024 * cfg.pfm)) && (x.recovery <==> CapsuleValid(d, u, m, 1024 * cfg.recovery))
    && (x.staging <==> ValidAt(d, u, m, 1024 * cfg.staging))
  }

  // The eight words of the hash in the active manifest are those of the manifest in the staged capsule
  predicate SameManifestHash(m: Mem, cfg: FlashMap)
    requires LaidOut(cfg, |m|)
  {
    m[1024 * cfg.pfm + 4..1024 * cfg.pfm + 12] == m[1024 * cfg.staging + 260..1024 * cfg.staging + 268]
  }

  lemma SameHashIs(m: Mem, cfg: FlashMap)
    requires LaidOut(cfg, |m|)
    ensures HashesMatch(m, cfg) <==> SameManifestHash(m, cfg)
  {
  }

  // The staged payload is copied over the recovery region: that one is not good, the staged one is, and an
  // active image that is good came from it
  predicate Copies(m: Mem, cfg: FlashMap, x: Regions)
    requires LaidOut(cfg, |m|)
  {
    !x.recovery && x.staging && (!x.active || SameManifestHash(m, cfg))
  }

  // The flash after that
  predicate AfterCopy(m: Mem, r: Mem, cfg: FlashMap, copies: bool) {
    && |r| == |m| && (!copies ==> r == m)
    && (copies ==> HoldsPayload(m, 1024 * cfg.staging)
                   && forall j | 0 <= j < |m| :: r[j] == CopyOf(PayloadAt(m, 1024 * cfg.staging), cfg.recovery, j, m[j]))
  }

  // Word j of the active image rebuilt in full from the recovery region
  ghost predicate AfterRebuild(m: Mem, r: Mem, cfg: FlashMap, j: nat) {
    && |r| == |m| && j < |m| && HoldsPayload(m, 1024 * cfg.recovery)
    && var c := PayloadAt(m, 1024 * cfg.recovery);
    && Readable(c)
    && (var page, es := j / 1024, Parse(c[520..]);
        (Selected(es, true, true, cfg.stagingAddr, page) && Comp(LayoutOf(c), page) ==> Active(LayoutOf(c), page)) ==>
          r[j] == RebuiltBy(c, es, true, true, cfg.stagingAddr, cfg.pfm, j, m[j]))
  }

  // Every row of the recovery matrix. First a recovery region that is not good is overwritten by a staged
  // payload that may stand in for it, and the minimum SVN raised to that of the manifest in it. Then, with a
  // recovery capsule to go by, the active image is rebuilt in full, static and dynamic, if it is not good or if
  // that is forced. An active image that stands alone is kept and the failure of the other regions recorded;
  // without any region all failed. Nothing else changes: in particular nothing at all if both regions are good
  // and nothing is forced.
  lemma MatrixRows(d: Device, u: Mem, m: Mem, cfg: FlashMap, force: bool, x: Regions) returns (mid: Mem)
    requires InState(d, u, m, cfg, x) && Workable(d, u, m, cfg, force)
    ensures var o := Authenticate(d, u, m, cfg, force);
            var copies := Copies(m, cfg, x);
            var rebuilds := (x.recovery || copies) && (force || !x.active);
            && (o.active <==> x.active || x.recovery || copies)
            && (o.recoveryFailed <==> x.active && !x.recovery && !copies)
            && (o.allFailed <==> !x.active && !x.recovery && !x.staging)
            && AfterCopy(m, mid, cfg, copies) && |o.mem| == |m|
            && (if rebuilds then forall j: nat | j < |m| :: AfterRebuild(mid, o.mem, cfg, j) else o.mem == mid)
            && o.page == if copies then SvnWritten(u, cfg.policy, (m[1024 * cfg.staging + 513] & 0xFF) as nat) else u
  {
    hide *;
    InStateIs(d, u, m, cfg, x);
    AuthenticateCases(d, u, m, cfg, force);
    SameHashIs(m, cfg);
    PromotableIs(d, u, m, cfg, x);
    mid := if Copies(m, cfg, x) then Promoted(m, cfg) else m;
    WorkableIs(d, u, m, cfg, force, x);
    if Copies(m, cfg, x) {
      PromotedWords(d, u, m, cfg);
    }
    NotCopied(m, mid, cfg, x);
    if (x.recovery || Copies(m, cfg, x)) && (force || !x.active) {
      RebuiltWords(mid, cfg);
    }
    CopiesNeeds(m, cfg, x);
  }

  lemma CopiesNeeds(m: Mem, cfg: FlashMap, x: Regions)
    requires LaidOut(cfg, |m|)
    ensures Copies(m, cfg, x) <==> !x.recovery && x.staging && (!x.active || SameManifestHash(m, cfg))
  {
  }

  lemma NotCopied(m: Mem, mid: Mem, cfg: FlashMap, x: Regions)
    requires LaidOut(cfg, |m|) && (!Copies(m, cfg, x) ==> mid == m)
    ensures !Copies(m, cfg, x) ==> AfterCopy(m, mid, cfg, false) && |mid| == |m|
  {
  }

  lemma InStateIs(d: Device, u: Mem, m: Mem, cfg: FlashMap, x: Regions)
    requires InState(d, u, m, cfg, x)
    ensures IsPage(u) && LaidOut(cfg, |m|)
    ensures x.active <==> ActiveValid(d, u, m, cfg.Active())
    ensures x.recovery <==> CapsuleValid(d, u, m, cfg.Recovery())
    ensures x.staging <==> ValidAt(d, u, m, cfg.Staging())
  {
  }

  lemma PromotableIs(d: Device, u: Mem, m: Mem, cfg: FlashMap, x: Regions)
    requires IsPage(u) && LaidOut(cfg, |m|) && (x.staging <==> ValidAt(d, u, m, cfg.Staging()))
    requires x.recovery <==> CapsuleValid(d, u, m, cfg.Recovery())
    requires x.active <==> ActiveValid(d, u, m, cfg.Active())
    requires HashesMatch(m, cfg) <==> SameManifestHash(m, cfg)
    ensures Copies(m, cfg, x) <==> !x.recovery && Promotable(d, u, m, cfg, !x.active)
    ensures Copies(m, cfg, x) <==> Promotes(d, u, m, cfg)
    ensures Copies(m, cfg, x) ==> ValidAt(d, u, m, cfg.Staging())
  {
    hide ValidAt, SameManifestHash, HashesMatch, CapsuleValid, ActiveValid;
  }

  lemma WorkableIs(d: Device, u: Mem, m: Mem, cfg: FlashMap, force: bool, x: Regions)
    requires IsPage(u) && LaidOut(cfg, |m|) && Workable(d, u, m, cfg, force)
    requires x.recovery <==> CapsuleValid(d, u, m, cfg.Recovery())
    requires x.active <==> ActiveValid(d, u, m, cfg.Active())
    requires Copies(m, cfg, x) <==> Promotes(d, u, m, cfg)
    ensures Copies(m, cfg, x) ==> HoldsPayload(m, cfg.Staging()) && CopyFits(m, cfg) && !x.recovery
    ensures var mid := if Copies(m, cfg, x) then Promoted(m, cfg) else m;
            |mid| == |m| && ((x.recovery || Copies(m, cfg, x)) && (force || !x.active) ==> CanRecover(mid, cfg))
  {
    WorkableIff(d, u, m, cfg, force);
    PromotesValid(d, u, m, cfg);
    WorkableRows(d, u, m, cfg, force);
    hide *;
    CopiesNeeds(m, cfg, x);
  }

  // The copy over the recovery region; the SVN of the staged payload is as it was
  lemma PromotedWords(d: Device, u: Mem, m: Mem, cfg: FlashMap)
    requires IsPage(u) && LaidOut(cfg, |m|) && ValidAt(d, u, m, cfg.Staging()) && HoldsPayload(m, cfg.Staging()) && CopyFits(m, cfg)
    ensures AfterCopy(m, Promoted(m, cfg), cfg, true) && 1024 * cfg.staging + 513 < |m| == |Promoted(m, cfg)| && cfg.Staging() + 513 < |m|
    ensures PfmSvn(Promoted(m, cfg), cfg.Staging()) == (m[1024 * cfg.staging + 513] & 0xFF) as nat
  {
    CopyFitsIs(m, cfg);
    hide *;
    var c := PayloadAt(m, cfg.Staging());
    forall j: nat | j < |m| ensures |Promoted(m, cfg)| == |m| && Promoted(m, cfg)[j] == CopyOf(c, cfg.recovery, j, m[j]) {
      CopiedWord(d, u, m, cfg.recovery, cfg.Staging(), j);
    }
    StagingPlace(m, cfg);
    AfterCopyIs(m, Promoted(m, cfg), cfg, c);
    PayloadLengthIs(m, cfg, c);
    SvnKept(m, Promoted(m, cfg), cfg, c);
  }

  lemma PayloadLengthIs(m: Mem, cfg: FlashMap, c: seq<Word>)
    requires HoldsPayload(m, cfg.Staging()) && c == PayloadAt(m, cfg.Staging()) && CopyFits(m, cfg)
    ensures cfg.Staging() + |c| <= 1024 * cfg.recovery || 1024 * (cfg.recovery + PagesUpTo(4 * |c|)) <= cfg.Staging()
    ensures |c| >= 256
  {
    assert SignedPayloadSize(m, cfg.Staging()) % 4 == 0 || SignedPayloadSize(m, cfg.Staging()) % 4 != 0;
    PagesOfWords(SignedPayloadSize(m, cfg.Staging()));
  }

  lemma PagesOfWords(n: nat)
    ensures PagesUpTo(4 * (n / 4)) <= PagesUpTo(n)
  {
  }

  lemma SvnKept(m: Mem, r: Mem, cfg: FlashMap, c: seq<Word>)
    requires |r| == |m| && 1024 * cfg.staging + 513 < |m| && cfg.Staging() == 1024 * cfg.staging && |c| >= 256
    requires forall j: nat | j < |m| :: r[j] == CopyOf(c, cfg.recovery, j, m[j])
    requires cfg.Staging() + |c| <= 1024 * cfg.recovery || 1024 * (cfg.recovery + PagesUpTo(4 * |c|)) <= cfg.Staging()
    ensures PfmSvn(r, cfg.Staging()) == (m[1024 * cfg.staging + 513] & 0xFF) as nat
  {
    var j := 1024 * cfg.staging + 513;
    assert r[j] == CopyOf(c, cfg.recovery, j, m[j]);
  }

  lemma StagingPlace(m: Mem, cfg: FlashMap)
    requires LaidOut(cfg, |m|)
    ensures 1024 * cfg.staging + 513 < |m| && cfg.Staging() == 1024 * cfg.staging && cfg.Recovery() == 1024 * cfg.recovery
  {
  }

  lemma CopyFitsIs(m: Mem, cfg: FlashMap)
    requires HoldsPayload(m, cfg.Staging()) && CopyFits(m, cfg)
    ensures MemcpyFits(|m|, cfg.recovery, cfg.Staging(), SignedPayloadSize(m, cfg.Staging()))
    ensures Promoted(m, cfg)
         == Run(m, MemcpyTrace(cfg.recovery, SignedPayloadSize(m, cfg.Staging()), PayloadAt(m, cfg.Staging())))
  {
    hide Run, MemcpyTrace, MemcpyFits, PayloadAt;
  }

  lemma AfterCopyIs(m: Mem, r: Mem, cfg: FlashMap, c: seq<Word>)
    requires HoldsPayload(m, cfg.Staging()) && c == PayloadAt(m, cfg.Staging()) && cfg.Staging() == 1024 * cfg.staging && |r| == |m|
    requires forall j: nat | j < |m| :: r[j] == CopyOf(c, cfg.recovery, j, m[j])
    ensures AfterCopy(m, r, cfg, true)
  {
    hide HoldsPayload, PayloadAt, CopyOf;
  }

  lemma RebuiltWords(m: Mem, cfg: FlashMap)
    requires CanRecover(m, cfg)
    ensures |ActiveRebuilt(m, cfg)| == |m| && forall j: nat | j < |m| :: AfterRebuild(m, ActiveRebuilt(m, cfg), cfg, j)
  {
    hide *;
    forall j: nat | j < |m| ensures AfterRebuild(m, ActiveRebuilt(m, cfg), cfg, j) {
      RebuiltWord(m, cfg, j);
    }
  }

  lemma RebuiltWord(m: Mem, cfg: FlashMap, j: nat)
    requires CanRecover(m, cfg) && j < |m|
    ensures AfterRebuild(m, ActiveRebuilt(m, cfg), cfg, j)
  {
    RebuildReady(m, cfg);
    RecoverParts(m, cfg);
    ManifestFits(m, cfg);
    BothKinds();
    hide RebuiltFrom, RebuiltBy, Selected, Comp, Active, LayoutOf, Parse, Usable, Readable, PayloadAt, HoldsPayload, ActiveRebuilt,
      CanRecover, SignedPfm, Terminated;
    var c := PayloadAt(m, cfg.Recovery());
    BodyOf(c);
    var page, es := j / 1024, Parse(c[520..]);
    if Selected(es, true, true, cfg.stagingAddr, page) && Comp(LayoutOf(c), page) ==> Active(LayoutOf(c), page) {
      RebuiltByManifest(c, StaticAndDynamic, cfg.stagingAddr, cfg.pfm, m, j);
    }
  }

  lemma BothKinds()
    ensures StaticAndDynamic.TakesStatic() && StaticAndDynamic.TakesDynamic()
  {
  }

  lemma BodyOf(c: seq<Word>)
    requires Readable(c)
    ensures |c| > 520 && Terminated(c[520..]) && HasHeader(c) && HoldsManifest(c) && HoldsBody(c)
  {
  }

  lemma RecoverParts(m: Mem, cfg: FlashMap)
    requires CanRecover(m, cfg)
    ensures HoldsPayload(m, cfg.Recovery()) && CanRebuild(PayloadAt(m, cfg.Recovery()), cfg, |m|)
  {
  }

  lemma ManifestFits(m: Mem, cfg: FlashMap)
    requires CanRecover(m, cfg)
    ensures HoldsPayload(m, cfg.Recovery()) && Readable(PayloadAt(m, cfg.Recovery())) && |SignedPfm(PayloadAt(m, cfg.Recovery()))| <= 16384
  {
    hide RegionsSafe, CapsuleRegions, LayoutOf, SignedPfm;
  }
}
