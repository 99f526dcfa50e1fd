/**
 What the platform state machine does to a flash, carried out in place: a watchdog recovery, an active
 firmware update, a capsule handed over to the other flash, and the promotion of the CPLD capsule. Each
 leaves the image that Platform says.
 */
module FlashFlows {
  import opened NorFlash
  import opened Sequences
  import opened SpiRwUtils
  import opened Ufm
  import opened Authentication
  import opened Pfm
  import opened Decompression
  import opened Rebuild
  import opened PfmValidation
  import opened CapsuleValidation
  import opened FlashValidation
  import opened Platform
  import CpldFlows
  import CpldPromotion
  import CpldUpdate

  // perform_wdt_recovery once the recovery capsule is found authentic
  method RecoverFlash(f: SpiFlash, cfg: FlashMap, level: bv8)
    requires f.Valid() && CanRecoverAtLevel(cfg, f.mem[..], level)
    modifies f, f.mem
    ensures f.Valid() && f.mem[..] == WdtImage(cfg, old(f.mem[..]), level)
  {
    ghost var m := f.mem[..];
    RecoveryParts(cfg, m, level);
    ghost var c, body := PayloadAt(m, cfg.Recovery()), WalkedBody(m, cfg.Active());
    hide *;
    var n := GetSignedPayloadSize(f, cfg.Recovery());
    RecoverAtLevel(f, cfg.Recovery(), n / 4, cfg.Active() + 264, level, cfg.stagingAddr, cfg.pfm, c, body);
  }

  lemma RecoveryParts(cfg: FlashMap, m: Mem, level: bv8)
    requires CanRecoverAtLevel(cfg, m, level)
    ensures HoldsPayload(m, cfg.Recovery()) && HasBody(m, cfg.Active()) && cfg.Recovery() + 1 < |m|
    ensures var c, body := PayloadAt(m, cfg.Recovery()), WalkedBody(m, cfg.Active());
            && WordsAt(m, cfg.Recovery(), c) && |c| == SignedPayloadSize(m, cfg.Recovery()) / 4
            && WordsAt(m, cfg.Active() + 264, body) && Readable(c) && Terminated(body)
            && UsableAtLevel(c, body, level, cfg.stagingAddr, cfg.Recovery(), cfg.Active() + 264, cfg.pfm, |m|)
            && WdtImage(cfg, m, level) == WdtRecovered(c, Parse(body), level, cfg.stagingAddr, cfg.pfm, m)
  {
    AtItsPlace(m, cfg.Recovery());
    WalkedDefinitions(m, cfg.Active());
    hide WdtRecovered, Readable, Terminated, Parse, Definitions, WalkedBody, HasBody, RegionsSafe, Chosen, StaticMarked, Usable, LayoutOf;
  }

  // perform_active_firmware_update: the whole image for a recovery or dynamic update, else the static part
  method UpdateFlash(f: SpiFlash, cfg: FlashMap, all: bool)
    requires f.Valid() && CanUpdate(cfg, f.mem[..], all)
    modifies f, f.mem
    ensures f.Valid() && f.mem[..] == UpdatedImage(cfg, old(f.mem[..]), all)
  {
    ghost var m := f.mem[..];
    UpdateParts(cfg, m, all);
    ghost var c := PayloadAt(m, cfg.Staging());
    hide *;
    var n := GetSignedPayloadSize(f, cfg.Staging());
    DecompressCapsule(f, cfg.Staging(), n / 4, ModeOf(all), cfg.stagingAddr, cfg.pfm, c);
  }

  lemma UpdateParts(cfg: FlashMap, m: Mem, all: bool)
    requires CanUpdate(cfg, m, all)
    ensures HoldsPayload(m, cfg.Staging()) && cfg.Staging() + 1 < |m|
    ensures var c := PayloadAt(m, cfg.Staging());
            && WordsAt(m, cfg.Staging(), c) && |c| == SignedPayloadSize(m, cfg.Staging()) / 4 && Readable(c)
            && Usable(c, ModeOf(all), cfg.stagingAddr, cfg.Staging(), cfg.pfm, |m|)
            && UpdatedImage(cfg, m, all) == RebuiltFrom(c, ModeOf(all), cfg.stagingAddr, cfg.pfm, m)
  {
    AtItsPlace(m, cfg.Staging());
    hide RebuiltFrom, Readable, RegionsSafe, CapsuleRegions, LayoutOf, SignedPfm;
  }

  // The copy of prep_for_oob_pch_fw_update
  method HandOver(dest: SpiFlash, src: SpiFlash, from: nat, page: nat)
    requires dest.Valid() && dest.mem != src.mem && CanHandOver(dest.mem[..], src.mem[..], from, page)
    modifies dest, dest.mem
    ensures dest.Valid() && dest.mem[..] == CopiedTo(old(dest.mem[..]), src.mem[..], from, page)
  {
    ghost var m, s := dest.mem[..], src.mem[..];
    HandOverParts(m, s, from, page);
    hide *;
    var n := GetSignedPayloadSize(src, from);
    CopyBetweenFlashes(dest, src, 4096 * page, from, n, page);
    assert src.mem[from..from + n / 4] == s[from..from + n / 4];
  }

  lemma HandOverParts(m: Mem, s: Mem, from: nat, page: nat)
    requires CanHandOver(m, s, from, page)
    ensures from + 1 < |s|
    ensures var n := SignedPayloadSize(s, from);
            && 4096 * page + n <= 4 * |m| && from + n / 4 <= |s|
            && CopiedTo(m, s, from, page) == CopiedBetween(m, page, n, s[from..from + n / 4])
  {
    AtItsPlace(s, from);
    hide CopiedBetween, SignedPayloadSize;
  }

  // What perform_cpld_recovery_update does to the flash and to the minimum SVN
  method PromoteCpldCapsule(f: SpiFlash, page: array<Word>, staged: nat)
    requires f.Valid() && page.Length == 59 && page != f.mem
    requires staged + CpldUpdate.AREA <= CpldUpdate.RECOVERY && CpldUpdate.RECOVERY + CpldUpdate.AREA <= f.mem.Length
    modifies f, f.mem, page
    ensures f.Valid() && f.mem[..] == CpldPromotion.CopiedOver(old(f.mem[..]), staged)
    ensures staged + 256 < f.mem.Length && IsPage(old(page[..]))
    ensures page[..] == SvnWritten(old(page[..]), CpldPolicy, CpldSvn(old(f.mem[..]), staged))
  {
    ghost var m := f.mem[..];
    Pages59();
    SvnWord(m, staged);
    hide *;
    CpldPromotion.PromoteCopies(m, staged);
    CpldFlows.CopyStagingArea(f, staged);
    CpldFlows.SvnStays(m, staged);
    var svn := CpldFlows.ReadSvn(f, staged);
    WriteUfmSvn(page, svn, CpldPolicy);
  }

  lemma SvnWord(m: Mem, staged: nat)
    requires staged + CpldUpdate.AREA <= CpldUpdate.RECOVERY && CpldUpdate.RECOVERY + CpldUpdate.AREA <= |m|
    ensures staged + 256 < |m| && CpldUpdate.Svn(m, staged) == CpldSvn(m, staged)
  {
  }

  // A flash with new contents, as whoever owns it may leave it
  method Rewrite(f: SpiFlash, data: Mem)
    requires f.Valid() && |data| == f.mem.Length
    modifies f, f.mem
    ensures f.Valid() && f.mem[..] == data
  {
    ghost var m := f.mem[..];
    WholeFlash(m, data);
    hide *;
    EraseSpiRegion(f, 0, 4 * f.mem.Length, 0);
    ghost var erased := f.mem[..];
    NothingProgrammed(erased, 0, data);
    for i := 0 to f.mem.Length
      invariant f.Valid() && f.mem[..] == Programmed(erased, 0, data[..i])
    {
      ProgrammedSnoc(erased, 0, data, i);
      f.ProgramWord(i, data[i]);
    }
    assert data[..f.mem.Length] == data;
  }

  lemma WholeFlash(m: Mem, data: Mem)
    requires |m| == |data|
    ensures Programmed(ErasePages(m, 0, 0 + PagesUpTo(4 * |m|)), 0, data) == data
  {
    var hi := PagesUpTo(4 * |m|);
    ProgrammedErased(m, 0, hi, 0, data);
  }
}
