/**
 What an admitted firmware update comes to: the new active image authenticates, the authentication that
 follows keeps it, and a recovery update ends with the same capsule in the recovery region.
 */
module UpdateEffect {
  import opened NorFlash
  import opened Sequences
  import opened SpiRwUtils
  import opened Ufm
  import opened Authentication
  import opened Pfm
  import opened Decompression
  import opened Rebuild
  import opened PfmValidation
  import opened CapsuleValidation
  import opened FlashValidation
  import opened Platform

  // The staged capsule is authentic, covers what it rebuilds, and is apart from it
  ghost predicate Updatable(d: Device, u: Mem, m: Mem, cfg: FlashMap, all: bool)
    requires IsPage(u) && LaidOut(cfg, |m|)
  {
    && ValidAt(d, u, m, cfg.Staging()) && CanUpdate(cfg, m, all)
    && var c := PayloadAt(m, cfg.Staging());
    && Shaped(c, cfg.pfm, |m|)
    && CompWithinActive(LayoutOf(c), CapsuleRegions(c, ModeOf(all), cfg.stagingAddr))
  }

  lemma UpdatableParts(d: Device, u: Mem, m: Mem, cfg: FlashMap, all: bool)
    requires IsPage(u) && LaidOut(cfg, |m|) && Updatable(d, u, m, cfg, all)
    ensures CanUpdate(cfg, m, all) && HoldsPayload(m, cfg.Staging()) && ModeOf(all).TakesStatic() && cfg.Active() == 1024 * cfg.pfm
    ensures var c := PayloadAt(m, cfg.Staging());
            && Shaped(c, cfg.pfm, |m|) && Readable(c) && HasHeader(c) && HoldsBody(c) && HoldsManifest(c)
            && CompWithinActive(LayoutOf(c), CapsuleRegions(c, ModeOf(all), cfg.stagingAddr))
            && Usable(c, ModeOf(all), cfg.stagingAddr, cfg.Staging(), cfg.pfm, |m|) && SignatureValid(d, u, c)
            && UpdatedImage(cfg, m, all) == RebuiltFrom(c, ModeOf(all), cfg.stagingAddr, cfg.pfm, m)
  {
    hide SignatureValid, RebuiltFrom, PayloadAt, CompWithinActive, LayoutOf, SignedPfm, CapsuleRegions, DefinitionsOf, DefinitionsEnd,
      RegionsSafe, RegionShaped, Hashed, HasHeader, HoldsManifest, HoldsBody;
  }

  // The updated image authenticates exactly when the manifest of the staged capsule is authentic and
  // describes the capsule; the staged capsule is as it was, and matches the image
  lemma UpdatedImageIsValidIff(d: Device, u: Mem, m: Mem, cfg: FlashMap, all: bool)
    requires IsPage(u) && LaidOut(cfg, |m|) && Updatable(d, u, m, cfg, all)
    ensures CanUpdate(cfg, m, all) && HoldsPayload(m, cfg.Staging())
    ensures var r := UpdatedImage(cfg, m, all);
            && (ActiveValid(d, u, r, cfg.Active()) <==> ManifestMatches(d, u, PayloadAt(m, cfg.Staging())))
            && HashesMatch(r, cfg) && ValidAt(d, u, r, cfg.Staging()) && HoldsPayload(r, cfg.Staging())
            && PayloadAt(r, cfg.Staging()) == PayloadAt(m, cfg.Staging())
  {
    hide *;
    UpdatableParts(d, u, m, cfg, all);
    var c, r := PayloadAt(m, cfg.Staging()), UpdatedImage(cfg, m, all);
    RebuildAuthenticatesIff(d, u, c, ModeOf(all), cfg.stagingAddr, cfg.pfm, m);
    RebuildSparesCapsule(m, cfg.Staging(), c, ModeOf(all), cfg.stagingAddr, cfg.pfm);
    ManifestInPlace(c, ModeOf(all), cfg.stagingAddr, cfg.pfm, m);
    StillValid(d, u, r, cfg.Staging());
    SameHashInBoth(r, cfg, c);
  }

  lemma StillValid(d: Device, u: Mem, r: Mem, at: nat)
    requires IsPage(u) && HoldsPayload(r, at) && SignatureValid(d, u, PayloadAt(r, at))
    ensures ValidAt(d, u, r, at)
  {
    hide SignatureValid, HoldsPayload, PayloadAt;
  }

  // The active manifest is the one inside the staged capsule, so both block 0s hold the same hash
  lemma SameHashInBoth(r: Mem, cfg: FlashMap, c: seq<Word>)
    requires LaidOut(cfg, |r|) && HoldsManifest(c) && HoldsPayload(r, cfg.Staging()) && PayloadAt(r, cfg.Staging()) == c
    requires HoldsPayload(r, cfg.Active()) && PayloadAt(r, cfg.Active()) == SignedPfm(c)
    ensures HashesMatch(r, cfg)
  {
    AtItsPlace(r, cfg.Staging());
    AtItsPlace(r, cfg.Active());
    hide HoldsPayload, PayloadAt, SignedPayloadSize;
    var s := SignedPfm(c);
    PartOfSlice(c, 256, s, 4, 8);
    PartOfSlice(r, cfg.Active(), s, 4, 8);
    PartOfSlice(r, cfg.Staging(), c, 260, 8);
  }

  // The authentication after an admitted update keeps the updated image, unless recovery is forced,
  // exactly when the capsule describes itself, whenever the recovery capsule still authenticates
  lemma AdmittedUpdateTakesEffect(d: Device, u: Mem, m: Mem, cfg: FlashMap, all: bool)
    requires IsPage(u) && LaidOut(cfg, |m|) && Updatable(d, u, m, cfg, all) && CanUpdate(cfg, m, all) && HoldsPayload(m, cfg.Staging())
    requires CapsuleValid(d, u, UpdatedImage(cfg, m, all), cfg.Recovery())
    ensures ManifestMatches(d, u, PayloadAt(m, cfg.Staging())) ==>
              Authenticate(d, u, UpdatedImage(cfg, m, all), cfg, false) == Outcome(UpdatedImage(cfg, m, all), u, true, false, false)
    ensures !ManifestMatches(d, u, PayloadAt(m, cfg.Staging())) ==>
              Authenticate(d, u, UpdatedImage(cfg, m, all), cfg, false)
                == Outcome(ActiveRebuilt(UpdatedImage(cfg, m, all), cfg), u, true, false, false)
  {
    hide *;
    var r := UpdatedImage(cfg, m, all);
    UpdatedImageIsValidIff(d, u, m, cfg, all);
    AuthenticateCases(d, u, r, cfg, false);
  }

  // The SVN byte of the manifest in a capsule
  function StagedSvn(c: seq<Word>): nat { if |c| > 513 then (c[513] & 0xFF) as nat else 0 }

  lemma HoldsStaged(d: Device, u: Mem, m: Mem, cfg: FlashMap, all: bool)
    requires IsPage(u) && LaidOut(cfg, |m|) && Updatable(d, u, m, cfg, all)
    ensures HoldsPayload(m, cfg.Staging()) && |PayloadAt(m, cfg.Staging())| > 513
  {
    hide SignatureValid, PayloadAt, SignedPayloadSize, RegionsSafe;
  }

  // The state after a recovery update of the active image
  lemma AfterUpdate(b: Board, s: State, dev: Dev, i: Intent)
    requires Sized(b, s) && (if dev == Bmc then i.bmcRecovery else i.pchRecovery) && CanUpdate(b.Map(dev), Of(s, dev).mem, true)
    ensures var t := ActiveUpdate(b, s, dev, i);
            && Of(t, dev).mem == UpdatedImage(b.Map(dev), Of(s, dev).mem, true) && Of(t, dev).flags.pending
            && Of(t, dev).attempts == 0 && t.page == s.page && t.mode == s.mode
  {
    hide UpdatedImage, Sized, CanUpdate;
  }

  // A recovery update completes: when the platform is reset with the flash as the update left it, the
  // recovery region gets the capsule that the active image was rebuilt from, and the minimum SVN rises
  // to the SVN of that capsule
  lemma RecoveryUpdateCompletes(b: Board, s: State, dev: Dev, i: Intent, t: State)
    requires Sized(b, s) && (if dev == Bmc then i.bmcRecovery else i.pchRecovery)
    requires IsPage(s.page) && LaidOut(b.Map(dev), |Of(s, dev).mem|) && Updatable(b.d, s.page, Of(s, dev).mem, b.Map(dev), true)
    requires Sized(b, t) && t.page == s.page && Of(t, dev).flags.pending && Of(t, dev).mem == Of(ActiveUpdate(b, s, dev, i), dev).mem
    requires HoldsPayload(Of(t, dev).mem, b.Map(dev).Staging()) ==> CopyFits(Of(t, dev).mem, b.Map(dev))
    ensures var cfg, r := b.Map(dev), PendingUpdate(b, t, dev);
            && HoldsPayload(Of(s, dev).mem, cfg.Staging())
            && var c := PayloadAt(Of(s, dev).mem, cfg.Staging());
            && Of(ActiveUpdate(b, s, dev, i), dev).flags.pending && !Of(r, dev).flags.pending && r.mode == t.mode
            && HoldsPayload(Of(r, dev).mem, cfg.Recovery()) && PayloadAt(Of(r, dev).mem, cfg.Recovery()) == c
            && r.page == SvnWritten(s.page, cfg.policy, StagedSvn(c))
  {
    hide *;
    HoldsStaged(b.d, s.page, Of(s, dev).mem, b.Map(dev), true);
    var cfg, m := b.Map(dev), Of(s, dev).mem;
    UpdatedImageIsValidIff(b.d, s.page, m, cfg, true);
    AfterUpdate(b, s, dev, i);
    PromotesPending(b, t, dev, PayloadAt(m, cfg.Staging()));
  }

  lemma PromotesPending(b: Board, t: State, dev: Dev, c: seq<Word>)
    requires Sized(b, t) && Of(t, dev).flags.pending
    requires IsPage(t.page) && LaidOut(b.Map(dev), |Of(t, dev).mem|) && ValidAt(b.d, t.page, Of(t, dev).mem, b.Map(dev).Staging())
    requires HashesMatch(Of(t, dev).mem, b.Map(dev)) && HoldsPayload(Of(t, dev).mem, b.Map(dev).Staging())
    requires CopyFits(Of(t, dev).mem, b.Map(dev)) && PayloadAt(Of(t, dev).mem, b.Map(dev).Staging()) == c && |c| > 513
    ensures var cfg, r := b.Map(dev), PendingUpdate(b, t, dev);
            && !Of(r, dev).flags.pending && r.mode == t.mode
            && HoldsPayload(Of(r, dev).mem, cfg.Recovery()) && PayloadAt(Of(r, dev).mem, cfg.Recovery()) == c
            && r.page == SvnWritten(t.page, cfg.policy, StagedSvn(c))
  {
    var cfg, m := b.Map(dev), Of(t, dev).mem;
    PromotedCapsule(b.d, t.page, m, cfg);
    AtItsPlace(Promoted(m, cfg), cfg.Staging());
    SvnInPayload(Promoted(m, cfg), cfg, c);
    hide ValidAt, HashesMatch, HoldsPayload, CopyFits, Promoted, PayloadAt, SvnWritten, PfmSvn, SameOutside, LaidOut;
    assert Promotable(b.d, t.page, m, cfg, false);
  }

  lemma SvnInPayload(m: Mem, cfg: FlashMap, c: seq<Word>)
    requires LaidOut(cfg, |m|) && HoldsPayload(m, cfg.Staging()) && PayloadAt(m, cfg.Staging()) == c && |c| > 513
    ensures PfmSvn(m, cfg.Staging()) == StagedSvn(c)
  {
    AtItsPlace(m, cfg.Staging());
    hide HoldsPayload, PayloadAt, SignedPayloadSize;
    assert c[513] == m[cfg.Staging() + 513];
  }
}
