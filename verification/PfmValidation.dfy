/**
 fw/code/inc/pfm_validation.h: a manifest is valid when its SMBus rules name the devices of the
 board and the static regions of the flash have the hashes it lists.
 */
module PfmValidation {
  import opened NorFlash
  import opened Sequences
  import opened SpiRwUtils
  import opened Ufm
  import opened Pfm
  import opened PfmWalk
  import opened Authentication
  import opened Decompression
  import opened Rebuild

  // smbus_device_addr
  const DEVICE_ADDRESSES: seq<seq<bv8>> := [
    [0x90, 0xAC, 0xA2, 0xB2, 0xA0, 0xB0, 0x00, 0x00, 0x00, 0x00, 0x00, 0x00, 0x00],
    [0xB4, 0xD4, 0x4A, 0x4C, 0xDC, 0xEC, 0xE0, 0xB0, 0xC4, 0xCC, 0xE4, 0x00, 0x00],
    [0x98, 0xA4, 0xD0, 0xD8, 0xE8, 0xE0, 0xA6, 0x36, 0x90, 0xA0, 0x92, 0xA2, 0x48]]

  // ---------------------------------------------------------------- valid manifests

  predicate RuleValid(e: Entry)
    requires e.SmbusRule?
  {
    var bus, rule := e.busId as nat, e.ruleId as nat;
    1 <= bus <= 3 && 1 <= rule <= 13 && e.deviceAddr == DEVICE_ADDRESSES[bus - 1][rule - 1]
  }

  // The bytes of a region lie in the flash, on word boundaries
  predicate InFlash(e: Entry, words: nat)
    requires e.SpiRegion?
  {
    && Start(e) % 4 == 0 && End(e) % 4 == 0
    && Start(e) / 4 <= End(e) / 4 <= words
  }

  predicate Hashed(e: Entry) { e.SpiRegion? && e.hashAlgorithm & 1 != 0 && e.Static() }

  predicate RegionValid(d: Device, m: Mem, e: Entry)
    requires e.SpiRegion?
  {
    Hashed(e) ==> InFlash(e, |m|) && d.sha(m[Start(e) / 4..End(e) / 4]) == e.hash
  }

  predicate EntryValid(d: Device, m: Mem, e: Entry) {
    if e.SmbusRule? then RuleValid(e) else RegionValid(d, m, e)
  }

  predicate BodyValid(d: Device, m: Mem, es: seq<Entry>) { forall e | e in es :: EntryValid(d, m, e) }

  // The words from the body of a manifest on end somewhere before the end of the flash
  predicate HasBody(m: Mem, at: nat) { at + 264 <= |m| && Terminated(m[at + 264..]) }

  // What the walks over the manifest at a word offset visit. They go by the words in the flash, wherever
  // the signed payload ends.
  function Definitions(m: Mem, at: nat): seq<Entry>
    requires HasBody(m, at)
  {
    Parse(m[at + 264..])
  }

  // The words such a walk reads
  function WalkedBody(m: Mem, at: nat): (r: seq<Word>)
    requires HasBody(m, at)
  {
    m[at + 264..][..WalkLength(m[at + 264..])]
  }

  lemma WalkedDefinitions(m: Mem, at: nat)
    requires HasBody(m, at)
    ensures var body := WalkedBody(m, at);
            Terminated(body) && Parse(body) == Definitions(m, at) && WordsAt(m, at + 264, body)
  {
    var all := m[at + 264..];
    var body := all[..WalkLength(all)];
    assert body[..WalkLength(all)] == body;
    SameWalk(all, body);
    assert m[at + 264..at + 264 + |body|] == body;
    hide Terminated, Parse, WalkLength;
  }

  const PFM_TAG: Word := 0x02B3_CE1D

  // is_pfm_valid
  predicate PfmValid(d: Device, m: Mem, at: nat) {
    && at + 264 <= |m| && m[at + 256] == PFM_TAG
    && HasBody(m, at) && BodyValid(d, m, Definitions(m, at))
  }

  // is_active_region_valid
  predicate ActiveValid(d: Device, u: Mem, m: Mem, at: nat)
    requires IsPage(u)
  {
    ValidAt(d, u, m, at) && PfmValid(d, m, at)
  }

  // ---------------------------------------------------------------- the checks as the code makes them

  // A bus or rule number 0 counts as invalid
  method IsSmbusRuleValid(e: Entry) returns (ok: bool)
    requires e.SmbusRule?
    ensures ok == RuleValid(e)
  {
    var bus, rule := e.busId as nat, e.ruleId as nat;
    if rule > 13 || bus > 3 || rule == 0 || bus == 0 {
      return false;
    }
    return e.deviceAddr == DEVICE_ADDRESSES[bus - 1][rule - 1];
  }

  // A hashed region that does not lie in the flash counts as invalid
  method IsSpiRegionValid(f: SpiFlash, d: Device, e: Entry) returns (ok: bool)
    requires e.SpiRegion?
    ensures ok == RegionValid(d, f.mem[..], e)
  {
    hide Hashed;
    if Hashed(e) {
      if !InFlash(e, f.mem.Length) {
        return false;
      }
      var start, end := Start(e) / 4, End(e) / 4;
      assert f.mem[..][start..end] == f.mem[start..end];
      return d.sha(f.mem[start..end]) == e.hash;
    }
    return true;
  }

  method IsEntryValid(f: SpiFlash, d: Device, e: Entry) returns (ok: bool)
    ensures ok == EntryValid(d, f.mem[..], e)
  {
    hide RuleValid, RegionValid;
    if e.SmbusRule? {
      ok := IsSmbusRuleValid(e);
    } else {
      ok := IsSpiRegionValid(f, d, e);
    }
  }

  // The walk over the body and the check of what it visits as one recursion
  predicate WalkValid(d: Device, m: Mem, body: seq<Word>)
    decreases |body|
  {
    && body != []
    && (IsRule(body[0]) || IsRegion(body[0]) ==>
          && DefWords(body[0]) <= |body| && EntryValid(d, m, ParseEntry(body[..DefWords(body[0])]))
          && WalkValid(d, m, body[DefWords(body[0])..]))
  }

  lemma {:induction false} WalkedIsValid(d: Device, m: Mem, body: seq<Word>)
    ensures WalkValid(d, m, body) <==> Terminated(body) && BodyValid(d, m, Parse(body))
    decreases |body|
  {
    if body != [] && (IsRule(body[0]) || IsRegion(body[0])) && DefWords(body[0]) <= |body| {
      var n := DefWords(body[0]);
      WalkedIsValid(d, m, body[n..]);
      if Terminated(body[n..]) {
        var e, rest := ParseEntry(body[..n]), Parse(body[n..]);
        assert forall x :: x in [e] + rest <==> x == e || x in rest;
      }
      hide ParseEntry, EntryValid, DefWords, IsRule, IsRegion;
    }
  }

  // One definition of the walk over the words of the flash from ptr on
  lemma WalkOn(d: Device, m: Mem, ptr: nat)
    requires ptr < |m|
    ensures !IsRule(m[ptr]) && !IsRegion(m[ptr]) ==> WalkValid(d, m, m[ptr..])
    ensures IsRule(m[ptr]) || IsRegion(m[ptr]) ==>
              var next := ptr + DefWords(m[ptr]);
              WalkValid(d, m, m[ptr..]) <==>
                next <= |m| && EntryValid(d, m, ParseEntry(m[ptr..next])) && WalkValid(d, m, m[next..])
  {
    var n := DefWords(m[ptr]);
    if ptr + n <= |m| {
      assert m[ptr..][..n] == m[ptr..ptr + n] && m[ptr..][n..] == m[ptr + n..];
    }
    hide EntryValid, ParseEntry, DefWords, IsRule, IsRegion;
  }

  // The loop stops at the first definition that is not valid, and at the end of the flash
  method IsPfmBodyValid(f: SpiFlash, d: Device, bodyAt: nat) returns (ok: bool)
    requires bodyAt <= f.mem.Length
    ensures ok == (Terminated(f.mem[..][bodyAt..]) && BodyValid(d, f.mem[..], Parse(f.mem[..][bodyAt..])))
  {
    hide *;
    ghost var m := f.mem[..];
    WalkedIsValid(d, m, m[bodyAt..]);
    var ptr := bodyAt;
    while ptr < f.mem.Length && (IsRule(f.mem[ptr]) || IsRegion(f.mem[ptr]))
      invariant ptr <= f.mem.Length && WalkValid(d, m, m[bodyAt..]) == WalkValid(d, m, m[ptr..])
    {
      WalkOn(d, m, ptr);
      DefinitionsAdvance(f.mem[ptr]);
      var next := ptr + DefWords(f.mem[ptr]);
      if next > f.mem.Length {
        return false;
      }
      assert f.mem[ptr..next] == m[ptr..next];
      var valid := IsEntryValid(f, d, ParseEntry(f.mem[ptr..next]));
      if !valid {
        return false;
      }
      ptr := next;
    }
    WalkStops(d, m, ptr);
    return ptr < f.mem.Length;
  }

  lemma WalkStops(d: Device, m: Mem, ptr: nat)
    requires ptr <= |m| && (ptr < |m| ==> !IsRule(m[ptr]) && !IsRegion(m[ptr]))
    ensures WalkValid(d, m, m[ptr..]) <==> ptr < |m|
  {
    if ptr < |m| {
      WalkOn(d, m, ptr);
    }
    hide IsRule, IsRegion, EntryValid, ParseEntry;
  }

  method IsActiveRegionValid(f: SpiFlash, d: Device, u: Mem, at: nat) returns (ok: bool)
    requires IsPage(u)
    ensures ok == ActiveValid(d, u, f.mem[..], at)
  {
    hide SignatureValid, BodyValid, Parse, Terminated, SignedPayloadSize;
    ok := IsSignatureValidAt(f, d, u, at);
    if ok {
      if at + 264 > f.mem.Length || f.mem[at + 256] != PFM_TAG {
        return false;
      }
      ok := IsPfmBodyValid(f, d, at + 264);
    }
  }

  // ---------------------------------------------------------------- rebuilding authenticates

  // The words a capsule describes for pages lo..hi-1
  function DescribedPages(k: Layout, lo: nat, hi: nat): (r: seq<Word>)
    requires lo <= hi
    ensures |r| == 1024 * (hi - lo)
  {
    seq(1024 * (hi - lo), (o: nat) requires o < 1024 * (hi - lo) => Described(k, lo + o / 1024, o % 1024))
  }

  // A hashed region consists of whole pages of the flash that the capsule has in its active bitmap, and
  // is not where the manifest itself goes
  predicate RegionShaped(k: Layout, e: Entry, pfm: nat, words: nat)
    requires e.SpiRegion?
  {
    && Start(e) == 4096 * Lo(e) && End(e) == 4096 * Hi(e)
    && Lo(e) <= Hi(e) && 1024 * Hi(e) <= words
    && (forall p: nat | Lo(e) <= p < Hi(e) :: Active(k, p))
    && (Hi(e) <= pfm || pfm + 16 <= Lo(e))
  }

  // What the capsule's manifest defines. Its definitions end inside the signed manifest or where that ends.
  predicate DefinitionsEnd(s: seq<Word>) { |s| >= 264 && Terminated(s[264..] + [ERASED]) }

  function DefinitionsOf(s: seq<Word>): seq<Entry>
    requires DefinitionsEnd(s)
  {
    Parse(s[264..] + [ERASED])
  }

  // The form of a capsule that an image can be rebuilt from: its manifest leaves room in its 64KB for a
  // word that ends the walk, unless it has one itself, and its hashed regions are covered by the capsule
  predicate Shaped(c: seq<Word>, pfm: nat, words: nat) {
    && Readable(c) && c[PbcAt(c)] == 0x5F50_4243
    && var s := SignedPfm(c);
    && DefinitionsEnd(s) && |s| <= 16384 && (|s| == 16384 ==> Terminated(s[264..]))
    && 1024 * pfm + 16384 <= words
    && forall e | e in DefinitionsOf(s) && Hashed(e) :: RegionShaped(LayoutOf(c), e, pfm, words)
  }

  // The hash a manifest lists for a region is that of what the capsule says of it
  predicate EntryDescribed(d: Device, k: Layout, e: Entry) {
    if e.SmbusRule? then RuleValid(e)
    else Hashed(e) && Lo(e) <= Hi(e) ==> d.sha(DescribedPages(k, Lo(e), Hi(e))) == e.hash
  }

  // An authentic manifest that describes the capsule it comes in
  predicate ManifestMatches(d: Device, u: Mem, c: seq<Word>)
    requires IsPage(u)
  {
    && Readable(c) && DefinitionsEnd(SignedPfm(c))
    && var s := SignedPfm(c);
    && SignatureValid(d, u, s) && s[256] == PFM_TAG
    && forall e | e in DefinitionsOf(s) :: EntryDescribed(d, LayoutOf(c), e)
  }

  // Definitions that fill a signed manifest exactly, as in the images the firmware is used with
  lemma FullManifest(es: seq<Entry>, s: seq<Word>)
    requires (forall e | e in es :: Encodable(e)) && |s| >= 264 && s[264..] == EncodeAll(es)
    ensures DefinitionsEnd(s) && DefinitionsOf(s) == es
  {
    EncodeThenParse(es, [ERASED]);
  }

  lemma SameDefinitions(c: seq<Word>)
    requires Readable(c) && c[PbcAt(c)] == 0x5F50_4243 && DefinitionsEnd(SignedPfm(c))
    ensures Parse(c[520..]) == DefinitionsOf(SignedPfm(c))
  {
    var s := SignedPfm(c);
    var pbc := PbcAt(c);
    assert pbc == 256 + |s|;
    PbcTag();
    hide Terminated, Parse, PbcAt, SignedPayloadSize, IsRule, IsRegion;
    EndsAnywhere(s[264..], c[pbc], c[pbc + 1..]);
    assert c[520..] == s[264..] + [c[pbc]] + c[pbc + 1..];
  }

  lemma PbcTag()
    ensures !IsRule(0x5F50_4243) && !IsRegion(0x5F50_4243) && !IsRule(ERASED) && !IsRegion(ERASED)
  {
  }

  // The definitions of a manifest copied to a flash, where an erased word follows unless it ends itself
  lemma DefinitionsCopied(r: Mem, at: nat, s: seq<Word>)
    requires DefinitionsEnd(s) && WordsAt(r, at, s)
    requires Terminated(s[264..]) || (at + |s| < |r| && r[at + |s|] == ERASED)
    ensures HasBody(r, at) && Definitions(r, at) == DefinitionsOf(s)
  {
    var end := at + |s|;
    PartOfSlice(r, at, s, 264, |s| - 264);
    assert r[at + 264..end] == s[264..|s|] == s[264..];
    hide Terminated, Parse, WordsAt;
    if Terminated(s[264..]) {
      ParseDependsOnPrefix(s[264..], [ERASED]);
      ParseDependsOnPrefix(s[264..], r[end..]);
      assert r[at + 264..] == s[264..] + r[end..];
    } else {
      PbcTag();
      EndsAnywhere(s[264..], ERASED, r[end + 1..]);
      assert r[at + 264..] == s[264..] + [ERASED] + r[end + 1..];
    }
  }

  // A hashed region of the rebuilt image is valid exactly when the manifest has the capsule's hash
  lemma RebuiltRegion(d: Device, c: seq<Word>, mode: Mode, staging: Word, pfm: nat, m: Mem, e: Entry)
    requires Readable(c) && mode.TakesStatic() && |SignedPfm(c)| <= 16384
    requires CompWithinActive(LayoutOf(c), CapsuleRegions(c, mode, staging))
    requires e in Parse(c[520..]) && Hashed(e) && RegionShaped(LayoutOf(c), e, pfm, |m|)
    ensures Lo(e) <= Hi(e)
    ensures RegionValid(d, RebuiltFrom(c, mode, staging, pfm, m), e) <==> d.sha(DescribedPages(LayoutOf(c), Lo(e), Hi(e))) == e.hash
  {
    assert e in CapsuleRegions(c, mode, staging);
    assert Lo(e) <= Hi(e);
    hide CapsuleRegions, Parse, LayoutOf, SignedPfm, Rebuilt, CompWithinActive, RegionShaped, RegionValid, Hashed, Lo, Hi;
    RebuiltPages(LayoutOf(c), SignedPfm(c), CapsuleRegions(c, mode, staging), mode, pfm, m, e);
    RegionByPages(d, LayoutOf(c), pfm, RebuiltFrom(c, mode, staging, pfm, m), e);
  }

  lemma RebuiltPages(k: Layout, s: seq<Word>, rs: seq<Entry>, mode: Mode, pfm: nat, m: Mem, e: Entry)
    requires mode.TakesStatic() && CompWithinActive(k, rs) && |s| <= 16384 && forall x | x in rs :: x.SpiRegion?
    requires e in rs && RegionShaped(k, e, pfm, |m|)
    ensures WordsAt(Rebuilt(k, s, rs, mode, pfm, m), 1024 * Lo(e), DescribedPages(k, Lo(e), Hi(e)))
  {
    RegionShapedParts(k, e, pfm, |m|);
    hide *;
    var r, described, at := Rebuilt(k, s, rs, mode, pfm, m), DescribedPages(k, Lo(e), Hi(e)), 1024 * Lo(e);
    forall o: nat | o < |described| ensures at + o < |r| && r[at + o] == described[o] {
      RebuiltOffset(k, s, rs, mode, pfm, m, e, o, at + o);
    }
    SlicesAgree(r, at, described);
  }

  lemma RebuiltOffset(k: Layout, s: seq<Word>, rs: seq<Entry>, mode: Mode, pfm: nat, m: Mem, e: Entry, o: nat, i: nat)
    requires mode.TakesStatic() && CompWithinActive(k, rs) && |s| <= 16384 && forall x | x in rs :: x.SpiRegion?
    requires e in rs && RegionShaped(k, e, pfm, |m|) && Lo(e) <= Hi(e)
    requires i == 1024 * Lo(e) + o && o < |DescribedPages(k, Lo(e), Hi(e))|
    ensures i < |m| && Rebuilt(k, s, rs, mode, pfm, m)[i] == DescribedPages(k, Lo(e), Hi(e))[o]
  {
    hide *;
    RegionShapedParts(k, e, pfm, |m|);
    var page := PageOf(Lo(e), Hi(e), o, i, |m|);
    DescribedAt(k, Lo(e), Hi(e), o);
    RebuiltPageWord(k, s, rs, mode, pfm, m, e, page, i);
  }

  lemma RebuiltPageWord(k: Layout, s: seq<Word>, rs: seq<Entry>, mode: Mode, pfm: nat, m: Mem, e: Entry, page: nat, i: nat)
    requires mode.TakesStatic() && CompWithinActive(k, rs) && |s| <= 16384 && forall x | x in rs :: x.SpiRegion?
    requires e in rs && RegionShaped(k, e, pfm, |m|) && Lo(e) <= page < Hi(e) && i / 1024 == page && i < |m|
    ensures Rebuilt(k, s, rs, mode, pfm, m)[i] == Described(k, page, i % 1024)
  {
    PageDescribed(k, e, pfm, |m|, page);
    hide *;
    RebuiltWord(k, s, rs, mode, pfm, m, i);
    RegionWordFixed(k, s, rs, mode, pfm, i, m[i], page, e);
  }

  lemma PageDescribed(k: Layout, e: Entry, pfm: nat, words: nat, page: nat)
    requires e.SpiRegion? && RegionShaped(k, e, pfm, words) && Lo(e) <= page < Hi(e)
    ensures Inside(e, page) && Active(k, page) && !(pfm <= page < pfm + 16)
  {
    hide Active, DescribedPages, Lo, Hi;
  }

  lemma DescribedAt(k: Layout, lo: nat, hi: nat, o: nat)
    requires lo <= hi && o < 1024 * (hi - lo)
    ensures DescribedPages(k, lo, hi)[o] == Described(k, lo + o / 1024, o % 1024)
  {
    hide Described;
  }

  lemma RegionShapedParts(k: Layout, e: Entry, pfm: nat, words: nat)
    requires e.SpiRegion? && RegionShaped(k, e, pfm, words)
    ensures Lo(e) <= Hi(e) && 1024 * Lo(e) + 1024 * (Hi(e) - Lo(e)) == 1024 * Hi(e) <= words
  {
    hide Active, Described, Lo, Hi;
  }

  lemma RegionByPages(d: Device, k: Layout, pfm: nat, r: Mem, e: Entry)
    requires e.SpiRegion? && Hashed(e) && RegionShaped(k, e, pfm, |r|) && Lo(e) <= Hi(e)
    requires WordsAt(r, 1024 * Lo(e), DescribedPages(k, Lo(e), Hi(e)))
    ensures RegionValid(d, r, e) <==> d.sha(DescribedPages(k, Lo(e), Hi(e))) == e.hash
  {
    PageInWords(Start(e), Lo(e));
    PageInWords(End(e), Hi(e));
    RegionShapedParts(k, e, pfm, |r|);
    hide Active, Described, Lo, Hi, RegionShaped, DescribedPages, Hashed;
  }

  lemma RegionWordFixed(k: Layout, s: seq<Word>, rs: seq<Entry>, mode: Mode, pfm: nat, i: nat, before: Word, page: nat, e: Entry)
    requires i / 1024 == page && !(pfm <= page < pfm + 16) && |s| <= 16384
    requires e in rs && Inside(e, page) && Active(k, page)
    ensures FixedWord(k, s, rs, mode, pfm, i, before) == Described(k, page, i % 1024)
  {
    hide Inside, Active, Described;
  }

  lemma SlicesAgree(r: Mem, at: nat, data: seq<Word>)
    requires at + |data| <= |r| && forall o: nat | o < |data| :: r[at + o] == data[o]
    ensures WordsAt(r, at, data)
  {
  }

  // Whatever the active area held before, the rebuilt image authenticates exactly when the capsule's
  // manifest is authentic and describes the pages the capsule encodes
  lemma RebuildAuthenticatesIff(d: Device, u: Mem, c: seq<Word>, mode: Mode, staging: Word, pfm: nat, m: Mem)
    requires IsPage(u) && mode.TakesStatic() && Shaped(c, pfm, |m|)
    requires CompWithinActive(LayoutOf(c), CapsuleRegions(c, mode, staging))
    ensures ActiveValid(d, u, RebuiltFrom(c, mode, staging, pfm, m), 1024 * pfm) <==> ManifestMatches(d, u, c)
  {
    var s, r := SignedPfm(c), RebuiltFrom(c, mode, staging, pfm, m);
    SameDefinitions(c);
    ManifestInPlace(c, mode, staging, pfm, m);
    forall e | e in DefinitionsOf(s) ensures EntryValid(d, r, e) <==> EntryDescribed(d, LayoutOf(c), e) {
      if Hashed(e) {
        RebuiltRegion(d, c, mode, staging, pfm, m, e);
      }
      hide RegionValid;
    }
    hide *;
    SameVerdictOnManifest(d, u, c, r, 1024 * pfm);
  }

  lemma SameVerdictOnManifest(d: Device, u: Mem, c: seq<Word>, r: Mem, at: nat)
    requires IsPage(u) && Readable(c) && DefinitionsEnd(SignedPfm(c))
    requires HoldsPayload(r, at) && PayloadAt(r, at) == SignedPfm(c) && at + 264 <= |r| && r[at + 256] == SignedPfm(c)[256]
    requires HasBody(r, at) && Definitions(r, at) == DefinitionsOf(SignedPfm(c))
    requires forall e | e in DefinitionsOf(SignedPfm(c)) :: EntryValid(d, r, e) <==> EntryDescribed(d, LayoutOf(c), e)
    ensures ActiveValid(d, u, r, at) <==> ManifestMatches(d, u, c)
  {
    hide SignatureValid, DefinitionsOf, Definitions, EntryValid, EntryDescribed, SignedPfm, HasBody, HoldsPayload, PayloadAt, Readable, LayoutOf;
  }

  // The capsule's manifest after a rebuild
  lemma ManifestInPlace(c: seq<Word>, mode: Mode, staging: Word, pfm: nat, m: Mem)
    requires mode.TakesStatic() && Shaped(c, pfm, |m|)
    ensures var r, at, s := RebuiltFrom(c, mode, staging, pfm, m), 1024 * pfm, SignedPfm(c);
            && HoldsPayload(r, at) && PayloadAt(r, at) == s
            && at + 264 <= |r| && r[at + 256] == s[256] && HasBody(r, at) && Definitions(r, at) == DefinitionsOf(s)
  {
    hide *;
    ShapedParts(c, pfm, |m|);
    var k, s, rs := LayoutOf(c), SignedPfm(c), CapsuleRegions(c, mode, staging);
    var r := RebuiltFrom(c, mode, staging, pfm, m);
    RebuiltFromIs(c, mode, staging, pfm, m);
    PfmPayload(c);
    PfmWords(k, s, rs, mode, pfm, m);
    SamePayloadAt(c, 256, r, 1024 * pfm);
    WordOf(r, 1024 * pfm, s, 256);
    DefinitionsCopied(r, 1024 * pfm, s);
  }

  lemma ShapedParts(c: seq<Word>, pfm: nat, words: nat)
    requires Shaped(c, pfm, words)
    ensures Readable(c) && HasHeader(c) && HoldsManifest(c) && HoldsBody(c) && c[PbcAt(c)] == 0x5F50_4243
    ensures var s := SignedPfm(c);
            DefinitionsEnd(s) && 264 <= |s| <= 16384 && 1024 * pfm + 16384 <= words && (|s| == 16384 ==> Terminated(s[264..]))
  {
    hide Terminated, SignedPfm, LayoutOf, DefinitionsOf, Hashed, RegionShaped, PbcAt;
  }

  lemma RebuiltFromIs(c: seq<Word>, mode: Mode, staging: Word, pfm: nat, m: Mem)
    requires Readable(c) && HasHeader(c) && HoldsManifest(c) && HoldsBody(c)
    ensures RebuiltFrom(c, mode, staging, pfm, m)
         == Rebuilt(LayoutOf(c), SignedPfm(c), CapsuleRegions(c, mode, staging), mode, pfm, m)
  {
    hide Rebuilt, LayoutOf, SignedPfm, CapsuleRegions;
  }

  lemma WordOf(r: Mem, at: nat, s: seq<Word>, o: nat)
    requires WordsAt(r, at, s) && o < |s|
    ensures at + |s| <= |r| && r[at + o] == s[o]
  {
    assert r[at..at + |s|][o] == r[at + o];
  }

  lemma PfmWords(k: Layout, s: seq<Word>, rs: seq<Entry>, mode: Mode, pfm: nat, m: Mem)
    requires mode.TakesStatic() && |s| <= 16384 && 1024 * pfm + 16384 <= |m| && forall x | x in rs :: x.SpiRegion?
    ensures var r, at := Rebuilt(k, s, rs, mode, pfm, m), 1024 * pfm;
            WordsAt(r, at, s) && (|s| < 16384 ==> at + |s| < |r| && r[at + |s|] == ERASED)
  {
    hide Covered, Active, Described, Comp;
    var image := RegionsImage(k, rs, m);
    assert Rebuilt(k, s, rs, mode, pfm, m) == PfmCopied(s, pfm, image);
    hide Rebuilt, RegionsImage, PfmCopied;
    forall o: nat | o < |s| ensures PfmCopied(s, pfm, image)[1024 * pfm + o] == s[o] {
      PfmWord(s, pfm, image, 1024 * pfm + o);
    }
    if |s| < 16384 {
      PfmWord(s, pfm, image, 1024 * pfm + |s|);
    }
    SlicesAgree(Rebuilt(k, s, rs, mode, pfm, m), 1024 * pfm, s);
  }

  lemma SamePayloadAt(m: Mem, at: nat, other: Mem, to: nat)
    requires HoldsPayload(m, at) && WordsAt(other, to, PayloadAt(m, at))
    ensures HoldsPayload(other, to) && PayloadAt(other, to) == PayloadAt(m, at)
  {
    AtItsPlace(m, at);
    SamePayload(m, at, other, to);
  }

  lemma PfmPayload(c: seq<Word>)
    requires HoldsManifest(c)
    ensures HoldsPayload(c, 256) && PayloadAt(c, 256) == SignedPfm(c) && |SignedPfm(c)| == SignedPayloadSize(c, 256) / 4
  {
  }
}
