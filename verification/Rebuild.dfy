/**
 decompress_capsule and perform_wdt_recovery (fw/code/inc/decompression.h, firmware_recovery.h): the
 walks over a manifest that rebuild the active image, region by region, from a capsule.
 */
module Rebuild {
  import opened NorFlash
  import opened Sequences
  import opened SpiRwUtils
  import opened Pfm
  import opened PfmWalk
  import opened Decompression

  // ---------------------------------------------------------------- which regions

  datatype Mode = StaticOnly | DynamicOnly | StaticAndDynamic {
    predicate TakesStatic() { !DynamicOnly? }
    predicate TakesDynamic() { !StaticOnly? }
  }

  // The two reasons to rebuild: a decompression type, or a watchdog recovery level
  datatype Selection = ByType(mode: Mode, staging: Word) | ByLevel(level: bv8) {
    predicate Takes(e: Entry) {
      && e.SpiRegion?
      && match this
         case ByType(mode, staging) =>
           if e.Static() then mode.TakesStatic() else e.Dynamic() && e.startAddr != staging && mode.TakesDynamic()
         case ByLevel(level) => e.Dynamic() && e.protection & level != 0
    }
  }

  function Chosen(es: seq<Entry>, sel: Selection): (r: seq<Entry>)
    ensures forall e | e in r :: e.SpiRegion?
    ensures forall e :: e in r <==> e in es && sel.Takes(e)
  {
    if es == [] then [] else (if sel.Takes(es[0]) then [es[0]] else []) + Chosen(es[1..], sel)
  }

  // The 4KB pages of a region
  function Lo(e: Entry): nat
    requires e.SpiRegion?
  {
    Start(e) / 4096
  }

  function Hi(e: Entry): nat
    requires e.SpiRegion?
  {
    End(e) / 4096
  }

  function RegionsImage(k: Layout, rs: seq<Entry>, m: Mem): (r: Mem)
    requires forall e | e in rs :: e.SpiRegion?
    ensures |r| == |m|
    decreases |rs|
  {
    if rs == [] then m else RegionsImage(k, rs[1..], RegionImage(k, Lo(rs[0]), Hi(rs[0]), m))
  }

  // ---------------------------------------------------------------- the rebuilt image, word by word

  predicate Inside(e: Entry, page: nat) { e.SpiRegion? && Lo(e) <= page < Hi(e) }

  predicate Covered(rs: seq<Entry>, page: nat) { exists e | e in rs :: Inside(e, page) }

  // No page of these regions is in the compression bitmap alone
  ghost predicate CompWithinActive(k: Layout, rs: seq<Entry>) {
    forall p: nat | Covered(rs, p) :: Comp(k, p) ==> Active(k, p)
  }

  lemma {:induction false} RegionsPages(k: Layout, rs: seq<Entry>, m: Mem, i: nat)
    requires i < |m| && forall e | e in rs :: e.SpiRegion?
    requires Covered(rs, i / 1024) && Comp(k, i / 1024) ==> Active(k, i / 1024)
    ensures RegionsImage(k, rs, m)[i]
         == if Covered(rs, i / 1024) && Active(k, i / 1024) then Described(k, i / 1024, i % 1024) else m[i]
    decreases |rs|
  {
    var page := i / 1024;
    if rs != [] {
      var next := RegionImage(k, Lo(rs[0]), Hi(rs[0]), m);
      CoveredStep(rs, page);
      RegionPages(k, Lo(rs[0]), Hi(rs[0]), m, i);
      RegionsPages(k, rs[1..], next, i);
      hide *;
    }
  }

  lemma CoveredStep(rs: seq<Entry>, page: nat)
    requires rs != [] && rs[0].SpiRegion?
    ensures Covered(rs, page) <==> Lo(rs[0]) <= page < Hi(rs[0]) || Covered(rs[1..], page)
  {
    hide Lo, Hi;
    if Lo(rs[0]) <= page < Hi(rs[0]) {
      assert Inside(rs[0], page);
    }
  }

  // With nested bitmaps, no page of a region the bitmaps have bits for is in the compression bitmap alone
  lemma NestedRegions(c: seq<Word>, rs: seq<Entry>)
    requires BitmapsNested(c) && forall e | e in rs :: e.SpiRegion? && Hi(e) <= 32 * BitmapWords(c)
    ensures CompWithinActive(LayoutOf(c), rs)
  {
    assert HasHeader(c);
    forall p: nat | Covered(rs, p) ensures Comp(LayoutOf(c), p) ==> Active(LayoutOf(c), p) {
      hide Comp, Active, BitmapsNested, BitmapWords, Lo, Hi, LayoutOf;
      var e :| e in rs && Inside(e, p);
      NestedBits(c, p);
    }
    hide Comp, Active, BitmapsNested, BitmapWords, Lo, Hi, LayoutOf, Covered, HasHeader;
  }

  // Whatever follows the bitmaps of such a capsule: the compressed payload is free
  lemma PayloadIsFree(c: seq<Word>, payload: seq<Word>, rs: seq<Entry>)
    requires BitmapsNested(c) && forall e | e in rs :: e.SpiRegion? && Hi(e) <= 32 * BitmapWords(c)
    ensures LayoutOf(c).pages <= |c|
    ensures var other := c[..LayoutOf(c).pages] + payload;
            HasHeader(other) && LayoutOf(other) == LayoutOf(c).(words := other) && CompWithinActive(LayoutOf(other), rs)
  {
    OtherPayload(c, payload);
    hide *;
    NestedRegions(c[..LayoutOf(c).pages] + payload, rs);
  }

  lemma OtherPayload(c: seq<Word>, payload: seq<Word>)
    requires BitmapsNested(c)
    ensures HasHeader(c) && LayoutOf(c).pages <= |c|
    ensures var other := c[..LayoutOf(c).pages] + payload;
            && BitmapsNested(other) && BitmapWords(other) == BitmapWords(c) && LayoutOf(other) == LayoutOf(c).(words := other)
  {
    var pages := LayoutOf(c).pages;
    SameHead(c, pages, payload);
    SameLayout(c, c[..pages] + payload, pages);
  }

  lemma SameLayout(c: seq<Word>, other: seq<Word>, pages: nat)
    requires BitmapsNested(c) && pages == LayoutOf(c).pages <= |other| && forall i: nat | i < pages :: other[i] == c[i]
    ensures BitmapsNested(other) && BitmapWords(other) == BitmapWords(c) && LayoutOf(other) == LayoutOf(c).(words := other)
  {
    assert HasHeader(c);
    SameHeader(c, other, pages);
    var k, n := LayoutOf(c), BitmapWords(c);
    hide LayoutOf, BitmapWords, HasHeader, PbcAt;
    forall j: nat | j < n ensures NestedAt(other, k.comp, k.active, j) {
      assert NestedAt(c, k.comp, k.active, j) && other[k.comp + j] == c[k.comp + j] && other[k.active + j] == c[k.active + j];
    }
  }

  lemma SameHeader(c: seq<Word>, other: seq<Word>, pages: nat)
    requires HasHeader(c) && pages == LayoutOf(c).pages <= |c| && pages <= |other|
    requires forall i: nat | i < pages :: other[i] == c[i]
    ensures HasHeader(other) && BitmapWords(other) == BitmapWords(c) && LayoutOf(other) == LayoutOf(c).(words := other)
    ensures var k, n := LayoutOf(c), BitmapWords(c); k.comp == k.active + n && k.pages == k.comp + n
  {
    var pbc := PbcAt(c);
    HeaderEnds(c, pages);
    assert other[257] == c[257] && other[pbc + 5] == c[pbc + 5];
    hide HasHeader;
  }

  lemma HeaderEnds(c: seq<Word>, pages: nat)
    requires HasHeader(c) && pages == LayoutOf(c).pages
    ensures PbcAt(c) + 32 <= pages && PbcAt(c) >= 512
  {
  }

  // The signed manifest inside a capsule, and its body
  predicate HoldsManifest(c: seq<Word>) { |c| >= 512 && 256 + SignedPayloadSize(c, 256) / 4 <= |c| }

  function SignedPfm(c: seq<Word>): (s: seq<Word>)
    requires HoldsManifest(c)
    ensures |s| >= 256
  {
    c[256..256 + SignedPayloadSize(c, 256) / 4]
  }

  // The 64KB at the active manifest's page erased, and a signed manifest copied over
  function PfmCopied(s: seq<Word>, pfm: nat, m: Mem): Mem {
    Programmed(ErasePages(m, pfm, pfm + 16), 1024 * pfm, s)
  }

  function Rebuilt(k: Layout, s: seq<Word>, rs: seq<Entry>, mode: Mode, pfm: nat, m: Mem): (r: Mem)
    requires forall e | e in rs :: e.SpiRegion?
    ensures |r| == |m|
  {
    var image := RegionsImage(k, rs, m);
    if mode.TakesStatic() then PfmCopied(s, pfm, image) else image
  }

  // Each word of the rebuilt image is either fixed by the capsule or left as it was
  function FixedWord(k: Layout, s: seq<Word>, rs: seq<Entry>, mode: Mode, pfm: nat, i: nat, before: Word): Word {
    if mode.TakesStatic() && 1024 * pfm <= i < 1024 * pfm + |s| then s[i - 1024 * pfm]
    else if mode.TakesStatic() && pfm <= i / 1024 < pfm + 16 then ERASED
    else if Covered(rs, i / 1024) && Active(k, i / 1024) then Described(k, i / 1024, i % 1024)
    else before
  }

  lemma RebuiltWord(k: Layout, s: seq<Word>, rs: seq<Entry>, mode: Mode, pfm: nat, m: Mem, i: nat)
    requires i < |m| && |s| <= 16384 && forall e | e in rs :: e.SpiRegion?
    requires Covered(rs, i / 1024) && Comp(k, i / 1024) ==> Active(k, i / 1024)
    ensures Rebuilt(k, s, rs, mode, pfm, m)[i] == FixedWord(k, s, rs, mode, pfm, i, m[i])
  {
    var image := RegionsImage(k, rs, m);
    RegionsPages(k, rs, m, i);
    PfmWord(s, pfm, image, i);
    hide RegionsImage, Covered, Active, Comp, Described, PfmCopied;
  }

  lemma PfmWord(s: seq<Word>, pfm: nat, m: Mem, i: nat)
    requires i < |m| && |s| <= 16384
    ensures PfmCopied(s, pfm, m)[i] == if 1024 * pfm <= i < 1024 * pfm + |s| then s[i - 1024 * pfm]
                                       else if pfm <= i / 1024 < pfm + 16 then ERASED else m[i]
  {
    hide Nor;
    if 1024 * pfm <= i < 1024 * pfm + |s| {
      ErasedTakesAnyWord(s[i - 1024 * pfm]);
    }
  }

  // Rebuilding twice is rebuilding once
  lemma RebuiltTwice(k: Layout, s: seq<Word>, rs: seq<Entry>, mode: Mode, pfm: nat, m: Mem)
    requires CompWithinActive(k, rs) && (forall e | e in rs :: e.SpiRegion?) && |s| <= 16384
    ensures Rebuilt(k, s, rs, mode, pfm, Rebuilt(k, s, rs, mode, pfm, m)) == Rebuilt(k, s, rs, mode, pfm, m)
  {
    hide Covered, Comp, Active;
    var once := Rebuilt(k, s, rs, mode, pfm, m);
    var twice := Rebuilt(k, s, rs, mode, pfm, once);
    forall i: nat | i < |m| ensures twice[i] == once[i] {
      RebuiltWord(k, s, rs, mode, pfm, m, i);
      RebuiltWord(k, s, rs, mode, pfm, once, i);
      hide Rebuilt, Covered, Active, Described;
    }
    hide Rebuilt, FixedWord;
  }

  // A rebuild of the static regions leaves every page outside them and the manifest's 64KB alone,
  // so dynamic regions and the staging region keep their contents
  lemma StaticRebuildFrame(k: Layout, s: seq<Word>, es: seq<Entry>, staging: Word, pfm: nat, m: Mem, i: nat)
    requires i < |m| && |s| <= 16384
    requires !(pfm <= i / 1024 < pfm + 16)
    requires forall e | e in es && e.Static() :: !Inside(e, i / 1024)
    ensures Rebuilt(k, s, Chosen(es, ByType(StaticOnly, staging)), StaticOnly, pfm, m)[i] == m[i]
  {
    var rs := Chosen(es, ByType(StaticOnly, staging));
    assert forall e | e in rs :: e.Static();
    assert !Covered(rs, i / 1024) by { hide Inside; }
    hide Rebuilt, Inside, Active, Comp, Described, Covered;
    RebuiltWord(k, s, rs, StaticOnly, pfm, m, i);
  }

  // ---------------------------------------------------------------- the walks

  // A region can be rebuilt from a capsule on the same flash: it consists of whole pages that the
  // capsule describes, and holds neither the capsule nor the manifest that is being walked
  predicate RegionSafe(e: Entry, k: Layout, capsule: nat, bodyAt: nat, bodyLen: nat, words: nat) {
    && e.SpiRegion?
    && Start(e) % 4096 == 0 && End(e) % 4096 == 0
    && Lo(e) <= Hi(e) && 1024 * Hi(e) <= words && Fits(k, Hi(e))
    && (capsule + |k.words| <= 1024 * Lo(e) || 1024 * Hi(e) <= capsule)
    && (bodyAt + bodyLen <= 1024 * Lo(e) || 1024 * Hi(e) <= bodyAt)
  }

  predicate RegionsSafe(rs: seq<Entry>, k: Layout, capsule: nat, bodyAt: nat, bodyLen: nat, words: nat) {
    forall e | e in rs :: RegionSafe(e, k, capsule, bodyAt, bodyLen, words)
  }

  // What a walk keeps at word ptr of the manifest body: rebuilding the chosen regions still to come
  // gives what rebuilding all of them gave at first
  ghost predicate Walking(k: Layout, capsule: nat, bodyAt: nat, body: seq<Word>, sel: Selection, ptr: nat, m: Mem, now: Mem) {
    && ptr < |body| && Terminated(body) && Terminated(body[ptr..])
    && WordsAt(now, capsule, k.words) && WordsAt(now, bodyAt, body) && |now| == |m|
    && RegionsSafe(Chosen(Parse(body[ptr..]), sel), k, capsule, bodyAt, |body|, |m|)
    && RegionsImage(k, Chosen(Parse(body[ptr..]), sel), now) == RegionsImage(k, Chosen(Parse(body), sel), m)
  }

  lemma WalkStarts(k: Layout, capsule: nat, bodyAt: nat, body: seq<Word>, sel: Selection, m: Mem)
    requires Terminated(body) && WordsAt(m, capsule, k.words) && WordsAt(m, bodyAt, body)
    requires RegionsSafe(Chosen(Parse(body), sel), k, capsule, bodyAt, |body|, |m|)
    ensures Walking(k, capsule, bodyAt, body, sel, 0, m, m)
  {
    assert body[0..] == body;
    assert body != [];
    hide Parse, Chosen, RegionsImage, RegionsSafe, WordsAt;
  }

  lemma WalkEnds(k: Layout, capsule: nat, bodyAt: nat, body: seq<Word>, sel: Selection, ptr: nat, m: Mem, now: Mem)
    requires Walking(k, capsule, bodyAt, body, sel, ptr, m, now) && !IsRule(body[ptr]) && !IsRegion(body[ptr])
    ensures Terminated(body) && now == RegionsImage(k, Chosen(Parse(body), sel), m)
  {
    assert Parse(body[ptr..]) == [];
    hide IsRule, IsRegion, RegionsSafe, WordsAt;
  }

  // Past a definition that is not chosen
  lemma WalkPasses(k: Layout, capsule: nat, bodyAt: nat, body: seq<Word>, sel: Selection, ptr: nat, m: Mem, now: Mem)
    requires Walking(k, capsule, bodyAt, body, sel, ptr, m, now) && AtDefinition(body, ptr)
    requires !sel.Takes(DefinitionAt(body, ptr))
    ensures Walking(k, capsule, bodyAt, body, sel, ptr + DefWords(body[ptr]), m, now)
  {
    ParseHere(body, ptr);
    var rest := Parse(body[ptr + DefWords(body[ptr])..]);
    var e := DefinitionAt(body, ptr);
    assert Chosen([e] + rest, sel) == Chosen(rest, sel) by {
      assert ([e] + rest)[1..] == rest;
    }
    hide Parse, Chosen, RegionsImage, RegionsSafe, WordsAt, AtDefinition, DefinitionAt, DefWords;
  }

  // Past a chosen region once it is rebuilt
  lemma WalkRebuilds(k: Layout, capsule: nat, bodyAt: nat, body: seq<Word>, sel: Selection, ptr: nat, m: Mem, now: Mem)
    requires Walking(k, capsule, bodyAt, body, sel, ptr, m, now) && AtDefinition(body, ptr)
    requires sel.Takes(DefinitionAt(body, ptr))
    ensures var e := DefinitionAt(body, ptr);
            && e.SpiRegion? && RegionSafe(e, k, capsule, bodyAt, |body|, |m|)
            && Walking(k, capsule, bodyAt, body, sel, ptr + DefWords(body[ptr]), m, RegionImage(k, Lo(e), Hi(e), now))
  {
    ParseHere(body, ptr);
    var rest := Parse(body[ptr + DefWords(body[ptr])..]);
    var e := DefinitionAt(body, ptr);
    var rs := Chosen([e] + rest, sel);
    assert rs == [e] + Chosen(rest, sel) && rs[1..] == Chosen(rest, sel) by {
      assert ([e] + rest)[1..] == rest;
    }
    assert e in rs;
    assert RegionSafe(e, k, capsule, bodyAt, |body|, |m|);
    var next := RegionImage(k, Lo(e), Hi(e), now);
    assert RegionsImage(k, rs, now) == RegionsImage(k, Chosen(rest, sel), next);
    ImageApart(k, e, now, capsule, k.words);
    ImageApart(k, e, now, bodyAt, body);
    hide Parse, Chosen, RegionsImage, WordsAt, AtDefinition, DefinitionAt, DefWords, RegionSafe;
  }

  lemma ImageApart(k: Layout, e: Entry, m: Mem, at: nat, data: seq<Word>)
    requires e.SpiRegion? && WordsAt(m, at, data) && (at + |data| <= 1024 * Lo(e) || 1024 * Hi(e) <= at)
    ensures WordsAt(RegionImage(k, Lo(e), Hi(e), m), at, data)
  {
    hide Lo, Hi, Active, Comp;
  }

  // decompress_spi_region_from_capsule on a definition of the manifest
  method DecompressRegion(f: SpiFlash, capsule: nat, k: Layout, e: Entry, ghost bodyAt: nat, ghost bodyLen: nat)
    requires f.Valid() && WordsAt(f.mem[..], capsule, k.words)
    requires RegionSafe(e, k, capsule, bodyAt, bodyLen, f.mem.Length)
    modifies f, f.mem
    ensures f.Valid() && f.mem[..] == RegionImage(k, Lo(e), Hi(e), old(f.mem[..]))
  {
    AlignedRegion(e, k, capsule, bodyAt, bodyLen, f.mem.Length);
    hide *;
    var start, end := Start(e), End(e);
    DecompressSpiRegionFromCapsule(f, start, end, capsule, k, Lo(e), Hi(e));
  }

  lemma AlignedRegion(e: Entry, k: Layout, capsule: nat, bodyAt: nat, bodyLen: nat, words: nat)
    requires RegionSafe(e, k, capsule, bodyAt, bodyLen, words)
    ensures e.SpiRegion? && Start(e) == 4096 * Lo(e) && End(e) == 4096 * Hi(e)
    ensures Lo(e) <= Hi(e) && 4096 * Hi(e) <= 4 * words && Hi(e) < 0xFFFF_FFFF && Fits(k, Hi(e))
    ensures capsule + |k.words| <= 1024 * Lo(e) || 1024 * Hi(e) <= capsule
  {
    hide Fits;
  }

  // One definition of a walk; next is the word after it
  method VisitDefinition(f: SpiFlash, capsule: nat, k: Layout, bodyAt: nat, ptr: nat, w: Word, sel: Selection,
                         ghost body: seq<Word>, ghost m: Mem)
    returns (e: Entry, next: nat)
    requires f.Valid() && Walking(k, capsule, bodyAt, body, sel, ptr, m, f.mem[..])
    requires AtDefinition(body, ptr) && w == body[ptr]
    modifies f, f.mem
    ensures f.Valid() && next == ptr + DefWords(body[ptr]) && e == DefinitionAt(body, ptr)
    ensures Walking(k, capsule, bodyAt, body, sel, next, m, f.mem[..])
  {
    WalkWhere(k, capsule, bodyAt, body, sel, ptr, m, f.mem[..]);
    hide *;
    e := ReadDefinition(f, bodyAt, ptr, w, body);
    if sel.Takes(e) {
      WalkRebuilds(k, capsule, bodyAt, body, sel, ptr, m, f.mem[..]);
      DecompressRegion(f, capsule, k, e, bodyAt, |body|);
    } else {
      WalkPasses(k, capsule, bodyAt, body, sel, ptr, m, f.mem[..]);
    }
    next := ptr + DefWords(w);
  }

  lemma WalkWhere(k: Layout, capsule: nat, bodyAt: nat, body: seq<Word>, sel: Selection, ptr: nat, m: Mem, now: Mem)
    requires Walking(k, capsule, bodyAt, body, sel, ptr, m, now)
    ensures ptr < |body| && |now| == |m| && WordsAt(now, capsule, k.words) && WordsAt(now, bodyAt, body)
    ensures AtDefinition(body, ptr) <==> IsRule(body[ptr]) || IsRegion(body[ptr])
  {
    hide Parse, Chosen, RegionsImage, RegionsSafe, WordsAt, IsRule, IsRegion;
  }

  // The loop of decompress_capsule over the definitions of the capsule's manifest
  method DecompressRegions(f: SpiFlash, capsule: nat, k: Layout, bodyAt: nat, sel: Selection, ghost body: seq<Word>)
    requires f.Valid() && Terminated(body) && WordsAt(f.mem[..], capsule, k.words) && WordsAt(f.mem[..], bodyAt, body)
    requires RegionsSafe(Chosen(Parse(body), sel), k, capsule, bodyAt, |body|, f.mem.Length)
    modifies f, f.mem
    ensures f.Valid() && f.mem[..] == RegionsImage(k, Chosen(Parse(body), sel), old(f.mem[..]))
  {
    hide *;
    ghost var m := f.mem[..];
    WalkStarts(k, capsule, bodyAt, body, sel, m);
    WalkWhere(k, capsule, bodyAt, body, sel, 0, m, m);
    var ptr := 0;
    var w := ReadWord(f, bodyAt, 0, body);
    while IsRule(w) || IsRegion(w)
      invariant ptr < |body| && w == body[ptr] && f.Valid() && Walking(k, capsule, bodyAt, body, sel, ptr, m, f.mem[..])
      decreases |body| - ptr
    {
      WalkWhere(k, capsule, bodyAt, body, sel, ptr, m, f.mem[..]);
      DefinitionsAdvance(w);
      var e, next := VisitDefinition(f, capsule, k, bodyAt, ptr, w, sel, body, m);
      WalkWhere(k, capsule, bodyAt, body, sel, next, m, f.mem[..]);
      ptr := next;
      w := ReadWord(f, bodyAt, ptr, body);
    }
    WalkEnds(k, capsule, bodyAt, body, sel, ptr, m, f.mem[..]);
  }

  // ---------------------------------------------------------------- decompress_capsule

  // get_capsule_pfm: the body of the manifest in a capsule
  predicate HoldsBody(c: seq<Word>) { |c| > 520 && Terminated(c[520..]) }

  predicate Readable(c: seq<Word>) { HasHeader(c) && HoldsManifest(c) && HoldsBody(c) }

  function CapsuleRegions(c: seq<Word>, mode: Mode, staging: Word): (rs: seq<Entry>)
    requires HoldsBody(c)
    ensures forall e | e in rs :: e.SpiRegion?
  {
    Chosen(Parse(c[520..]), ByType(mode, staging))
  }

  // The image decompress_capsule leaves
  function RebuiltFrom(c: seq<Word>, mode: Mode, staging: Word, pfm: nat, m: Mem): (r: Mem)
    requires Readable(c)
    ensures |r| == |m|
  {
    Rebuilt(LayoutOf(c), SignedPfm(c), CapsuleRegions(c, mode, staging), mode, pfm, m)
  }

  // A capsule on a flash can be used to rebuild: the chosen regions and the 64KB of the active
  // manifest are apart from it
  predicate Usable(c: seq<Word>, mode: Mode, staging: Word, capsule: nat, pfm: nat, words: nat) {
    && Readable(c)
    && RegionsSafe(CapsuleRegions(c, mode, staging), LayoutOf(c), capsule, capsule + 520, |c| - 520, words)
    && |SignedPfm(c)| <= 16384 && 1024 * pfm + 16384 <= words
    && (capsule + |c| <= 1024 * pfm || 1024 * pfm + 16384 <= capsule)
  }

  // The pointers into the capsule, computed from its words in the flash
  method GetLayout(f: SpiFlash, capsule: nat, n: nat, ghost c: seq<Word>) returns (k: Layout)
    requires WordsAt(f.mem[..], capsule, c) && n == |c| && HasHeader(c)
    ensures k == LayoutOf(c)
  {
    assert f.mem[capsule..capsule + n] == c;
    k := LayoutOf(f.mem[capsule..capsule + n]);
  }

  lemma {:induction false} RegionsApart(k: Layout, rs: seq<Entry>, m: Mem, at: nat, data: seq<Word>)
    requires (forall e | e in rs :: e.SpiRegion?) && WordsAt(m, at, data)
    requires forall e | e in rs :: at + |data| <= 1024 * Lo(e) || 1024 * Hi(e) <= at
    ensures WordsAt(RegionsImage(k, rs, m), at, data)
    decreases |rs|
  {
    hide Lo, Hi, WordsAt;
    if rs != [] {
      ImageApart(k, rs[0], m, at, data);
      RegionsApart(k, rs[1..], RegionImage(k, Lo(rs[0]), Hi(rs[0]), m), at, data);
    }
  }

  lemma CapsuleSurvives(c: seq<Word>, k: Layout, rs: seq<Entry>, capsule: nat, bodyAt: nat, bodyLen: nat, m: Mem)
    requires WordsAt(m, capsule, k.words) && k.words == c && RegionsSafe(rs, k, capsule, bodyAt, bodyLen, |m|)
    ensures (forall e | e in rs :: e.SpiRegion?) && WordsAt(RegionsImage(k, rs, m), capsule, c)
  {
    forall e | e in rs
      ensures e.SpiRegion? && (capsule + |k.words| <= 1024 * Lo(e) || 1024 * Hi(e) <= capsule)
    {
      assert RegionSafe(e, k, capsule, bodyAt, bodyLen, |m|);
    }
    hide RegionsSafe, RegionSafe, RegionsImage, WordsAt;
    RegionsApart(k, rs, m, capsule, c);
  }

  // Erases the active manifest's 64KB and copies the capsule's signed manifest there
  method ReplacePfm(f: SpiFlash, capsule: nat, pfm: nat, ghost c: seq<Word>)
    requires f.Valid() && HoldsManifest(c) && WordsAt(f.mem[..], capsule, c) && |SignedPfm(c)| <= 16384
    requires 1024 * pfm + 16384 <= f.mem.Length && (capsule + |c| <= 1024 * pfm || 1024 * pfm + 16384 <= capsule)
    modifies f, f.mem
    ensures f.Valid() && f.mem[..] == PfmCopied(SignedPfm(c), pfm, old(f.mem[..]))
  {
    hide *;
    ghost var m := f.mem[..];
    PfmCopiedIs(SignedPfm(c), pfm, m);
    ErasedApart(m, pfm, pfm + 16, capsule, c);
    EraseWholePages(f, pfm, pfm + 16);
    var nbytes := PfmSize(f, capsule, c);
    CopyPfm(f, 1024 * pfm, capsule, nbytes, c);
  }

  method CopyPfm(f: SpiFlash, at: nat, capsule: nat, nbytes: nat, ghost c: seq<Word>)
    requires f.Valid() && HoldsManifest(c) && WordsAt(f.mem[..], capsule, c) && |SignedPfm(c)| <= 16384
    requires nbytes / 4 == |SignedPfm(c)|
    requires at + 16384 <= f.mem.Length && (capsule + |c| <= at || at + 16384 <= capsule)
    modifies f, f.mem
    ensures f.Valid() && f.mem[..] == Programmed(old(f.mem[..]), at, SignedPfm(c))
  {
    SignedPfmAt(f.mem[..], capsule, c);
    hide *;
    CopyWords(f, at, capsule + 256, nbytes / 4, SignedPfm(c));
  }

  lemma PfmCopiedIs(s: seq<Word>, pfm: nat, m: Mem)
    ensures PfmCopied(s, pfm, m) == Programmed(ErasePages(m, pfm, pfm + 16), 1024 * pfm, s)
  {
  }

  lemma ErasedApart(m: Mem, lo: nat, hi: nat, at: nat, data: seq<Word>)
    requires WordsAt(m, at, data) && (at + |data| <= 1024 * lo || 1024 * hi <= at)
    ensures WordsAt(ErasePages(m, lo, hi), at, data)
  {
    ErasePagesApart(m, lo, hi, at, |data|);
  }

  method PfmSize(f: SpiFlash, capsule: nat, ghost c: seq<Word>) returns (n: nat)
    requires HoldsManifest(c) && WordsAt(f.mem[..], capsule, c)
    ensures n == SignedPayloadSize(c, 256) && |SignedPfm(c)| == n / 4
  {
    n := GetSignedPayloadSize(f, capsule + 256);
    assert f.mem[..][capsule..capsule + |c|][257] == f.mem[capsule + 257];
  }

  lemma SignedPfmAt(m: Mem, capsule: nat, c: seq<Word>)
    requires HoldsManifest(c) && WordsAt(m, capsule, c)
    ensures capsule + 256 + |SignedPfm(c)| <= |m| && 256 + |SignedPfm(c)| <= |c|
    ensures m[capsule + 256..capsule + 256 + |SignedPfm(c)|] == SignedPfm(c)
  {
    hide SignedPayloadSize;
    PartOfSlice(m, capsule, c, 256, |SignedPfm(c)|);
  }

  // staging is the provisioned address of the staging region, n the capsule's length in words
  method DecompressCapsule(f: SpiFlash, capsule: nat, n: nat, mode: Mode, staging: Word, pfm: nat, ghost c: seq<Word>)
    requires f.Valid() && WordsAt(f.mem[..], capsule, c) && n == |c|
    requires Usable(c, mode, staging, capsule, pfm, f.mem.Length)
    modifies f, f.mem
    ensures f.Valid() && Readable(c) && f.mem[..] == RebuiltFrom(c, mode, staging, pfm, old(f.mem[..]))
  {
    ghost var m := f.mem[..];
    UsableParts(c, mode, staging, capsule, pfm, m);
    hide *;
    ghost var rs := CapsuleRegions(c, mode, staging);
    var k := GetLayout(f, capsule, n, c);
    DecompressRegions(f, capsule, k, capsule + 520, ByType(mode, staging), c[520..]);
    CapsuleSurvives(c, k, rs, capsule, capsule + 520, |c| - 520, m);
    if mode.TakesStatic() {
      ReplacePfm(f, capsule, pfm, c);
    }
    RebuiltInSteps(c, mode, staging, pfm, m);
  }

  lemma UsableParts(c: seq<Word>, mode: Mode, staging: Word, capsule: nat, pfm: nat, m: Mem)
    requires Usable(c, mode, staging, capsule, pfm, |m|) && WordsAt(m, capsule, c)
    ensures Readable(c) && HasHeader(c) && HoldsManifest(c) && HoldsBody(c) && |c| > 520 && LayoutOf(c).words == c
    ensures var body := c[520..];
            && Terminated(body) && |body| == |c| - 520 && WordsAt(m, capsule + 520, body)
            && CapsuleRegions(c, mode, staging) == Chosen(Parse(body), ByType(mode, staging))
            && RegionsSafe(CapsuleRegions(c, mode, staging), LayoutOf(c), capsule, capsule + 520, |body|, |m|)
    ensures |SignedPfm(c)| <= 16384 && 1024 * pfm + 16384 <= |m|
    ensures capsule + |c| <= 1024 * pfm || 1024 * pfm + 16384 <= capsule
  {
    hide RegionsSafe, Terminated, Parse, SignedPayloadSize, PbcAt;
    PartOfSlice(m, capsule, c, 520, |c| - 520);
    assert c[520..520 + (|c| - 520)] == c[520..];
  }

  lemma RebuiltInSteps(c: seq<Word>, mode: Mode, staging: Word, pfm: nat, m: Mem)
    requires Readable(c)
    ensures HasHeader(c) && HoldsManifest(c) && HoldsBody(c)
    ensures RebuiltFrom(c, mode, staging, pfm, m)
         == var image := RegionsImage(LayoutOf(c), CapsuleRegions(c, mode, staging), m);
            if mode.TakesStatic() then PfmCopied(SignedPfm(c), pfm, image) else image
  {
    hide RegionsImage, PfmCopied, CapsuleRegions, LayoutOf, SignedPfm;
  }

  // ---------------------------------------------------------------- the rebuilt image by the manifest

  // The protection bits of a region that the component may read and not write, and of one it may write too
  predicate IsStatic(e: Entry) { e.SpiRegion? && e.protection & 3 == 1 }

  predicate IsDynamic(e: Entry) { e.SpiRegion? && e.protection & 3 == 3 }

  predicate HoldsPage(e: Entry, page: nat) { e.SpiRegion? && e.startAddr as nat / 4096 <= page < e.endAddr as nat / 4096 }

  // A page lies in a region that is rebuilt: a static one, or a dynamic one other than the staging region
  ghost predicate Selected(es: seq<Entry>, fixed: bool, dynamic: bool, staging: Word, page: nat) {
    exists e | e in es ::
      HoldsPage(e, page) && ((fixed && IsStatic(e)) || (dynamic && IsDynamic(e) && e.startAddr != staging))
  }

  // What becomes of word i: the 64KB of the active manifest hold the signed manifest of the capsule and are
  // erased behind it, when static regions are rebuilt; pages of rebuilt regions that the capsule has are as it
  // says; everything else is as before
  ghost function RebuiltBy(c: seq<Word>, es: seq<Entry>, fixed: bool, dynamic: bool, staging: Word, pfm: nat, i: nat, before: Word): Word
    requires HasHeader(c) && HoldsManifest(c)
  {
    var k, page, s := LayoutOf(c), i / 1024, SignedPfm(c);
    if fixed && pfm <= page < pfm + 16 then (if i - 1024 * pfm < |s| then s[i - 1024 * pfm] else ERASED)
    else if Selected(es, fixed, dynamic, staging, page) && Active(k, page) then Described(k, page, i % 1024)
    else before
  }

  lemma ProtectionBits(e: Entry)
    ensures IsStatic(e) <==> e.Static()
    ensures IsDynamic(e) <==> e.Dynamic()
  {
    if e.SpiRegion? {
      BothBits(e.protection);
    }
  }

  lemma BothBits(b: bv8)
    ensures b & 3 == 1 <==> b & 1 != 0 && b & 2 == 0
    ensures b & 3 == 3 <==> b & 1 != 0 && b & 2 != 0
  {
  }

  lemma HoldsIsInside(e: Entry, page: nat)
    ensures HoldsPage(e, page) <==> Inside(e, page)
  {
  }

  lemma TakesByBits(e: Entry, mode: Mode, staging: Word)
    ensures ByType(mode, staging).Takes(e)
       <==> (mode.TakesStatic() && IsStatic(e)) || (mode.TakesDynamic() && IsDynamic(e) && e.startAddr != staging)
  {
    ProtectionBits(e);
    StaticIsNotDynamic(e);
    hide IsStatic, IsDynamic, Entry.Static, Entry.Dynamic;
  }

  lemma StaticIsNotDynamic(e: Entry)
    ensures !(e.Static() && e.Dynamic()) && (IsStatic(e) || IsDynamic(e) ==> e.SpiRegion?)
  {
  }

  lemma SelectedIsCovered(es: seq<Entry>, mode: Mode, staging: Word, page: nat)
    ensures Covered(Chosen(es, ByType(mode, staging)), page) <==> Selected(es, mode.TakesStatic(), mode.TakesDynamic(), staging, page)
  {
    var sel := ByType(mode, staging);
    forall e: Entry ensures sel.Takes(e) && Inside(e, page)
        <==> HoldsPage(e, page) && ((mode.TakesStatic() && IsStatic(e)) || (mode.TakesDynamic() && IsDynamic(e) && e.startAddr != staging)) {
      TakesByBits(e, mode, staging);
      HoldsIsInside(e, page);
      hide *;
    }
    hide IsStatic, IsDynamic, HoldsPage, Inside, Selection.Takes;
    if e :| e in es && HoldsPage(e, page) && ((mode.TakesStatic() && IsStatic(e)) || (mode.TakesDynamic() && IsDynamic(e) && e.startAddr != staging)) {
      assert e in Chosen(es, sel) && Inside(e, page);
    }
  }

  // Word by word, the image rebuilt from a capsule is told by the protection bits in the manifest
  lemma RebuiltByManifest(c: seq<Word>, mode: Mode, staging: Word, pfm: nat, m: Mem, i: nat)
    requires Readable(c) && |SignedPfm(c)| <= 16384 && i < |m|
    requires var page := i / 1024;
             Selected(Parse(c[520..]), mode.TakesStatic(), mode.TakesDynamic(), staging, page) && Comp(LayoutOf(c), page) ==> Active(LayoutOf(c), page)
    ensures RebuiltFrom(c, mode, staging, pfm, m)[i]
         == RebuiltBy(c, Parse(c[520..]), mode.TakesStatic(), mode.TakesDynamic(), staging, pfm, i, m[i])
  {
    var k, s, rs := LayoutOf(c), SignedPfm(c), CapsuleRegions(c, mode, staging);
    SelectedIsCovered(Parse(c[520..]), mode, staging, i / 1024);
    RebuiltWord(k, s, rs, mode, pfm, m, i);
    FixedIs(k, s, rs, mode, pfm, i, m[i]);
    hide Covered, Chosen, Active, Comp, Described, Rebuilt, Inside, LayoutOf, SignedPfm, Selected, FixedWord;
  }

  lemma FixedIs(k: Layout, s: seq<Word>, rs: seq<Entry>, mode: Mode, pfm: nat, i: nat, before: Word)
    requires |s| <= 16384
    ensures FixedWord(k, s, rs, mode, pfm, i, before)
         == if mode.TakesStatic() && pfm <= i / 1024 < pfm + 16 then (if i - 1024 * pfm < |s| then s[i - 1024 * pfm] else ERASED)
            else if Covered(rs, i / 1024) && Active(k, i / 1024) then Described(k, i / 1024, i % 1024)
            else before
  {
    hide Covered, Active, Described;
  }

  // ---------------------------------------------------------------- perform_wdt_recovery

  // SPI_REGION_PROTECT_MASK_RECOVER_BITS on a static region
  predicate MarksStatic(e: Entry) { e.SpiRegion? && e.Static() && e.protection & 0x1C != 0 }

  predicate StaticMarked(es: seq<Entry>) { exists e | e in es :: MarksStatic(e) }

  // The dynamic regions of the active manifest marked for this level are rebuilt; when any static
  // region is marked for some level, all static regions and the manifest are
  function WdtRecovered(c: seq<Word>, es: seq<Entry>, level: bv8, staging: Word, pfm: nat, m: Mem): (r: Mem)
    requires Readable(c)
    ensures |r| == |m|
  {
    var image := RegionsImage(LayoutOf(c), Chosen(es, ByLevel(level)), m);
    if StaticMarked(es) then RebuiltFrom(c, StaticOnly, staging, pfm, image) else image
  }

  // Word by word: a level rebuilds exactly the dynamic regions whose bit for it is set, and the
  // static ones all together or not at all
  lemma WdtRecoveredWord(c: seq<Word>, es: seq<Entry>, level: bv8, staging: Word, pfm: nat, m: Mem, i: nat)
    requires Readable(c) && |SignedPfm(c)| <= 16384 && i < |m|
    requires CompWithinActive(LayoutOf(c), Chosen(es, ByLevel(level)))
    requires StaticMarked(es) ==> CompWithinActive(LayoutOf(c), CapsuleRegions(c, StaticOnly, staging))
    ensures WdtRecovered(c, es, level, staging, pfm, m)[i]
         == var k, page := LayoutOf(c), i / 1024;
            var dynamic := exists e | e in es :: e.Dynamic() && e.protection & level != 0 && Inside(e, page);
            var before := if dynamic && Active(k, page) then Described(k, page, i % 1024) else m[i];
            if StaticMarked(es) then FixedWord(k, SignedPfm(c), CapsuleRegions(c, StaticOnly, staging), StaticOnly, pfm, i, before)
            else before
  {
    var k := LayoutOf(c);
    var rs := Chosen(es, ByLevel(level));
    var image := RegionsImage(k, rs, m);
    RegionsPages(k, rs, m, i);
    if StaticMarked(es) {
      RebuiltWord(k, SignedPfm(c), CapsuleRegions(c, StaticOnly, staging), StaticOnly, pfm, image, i);
    }
    LevelCovers(es, level, i / 1024);
    hide Covered, Chosen, RegionsImage, Active, Comp, Described, Rebuilt, FixedWord, StaticMarked, Inside, LayoutOf, SignedPfm, CapsuleRegions;
  }

  // A dynamic region that holds a page has the bit of this level; a static region has a bit of any level
  ghost predicate MarkedFor(es: seq<Entry>, bit: bv8, page: nat) {
    exists e | e in es :: HoldsPage(e, page) && IsDynamic(e) && e.protection & bit != 0
  }

  ghost predicate AnyStaticMarked(es: seq<Entry>) { exists e | e in es :: IsStatic(e) && e.protection & 0x1C != 0 }

  // The same by the protection bits in the active manifest, and for static regions in the capsule's
  lemma WdtRecoveredByManifest(c: seq<Word>, es: seq<Entry>, level: bv8, staging: Word, pfm: nat, m: Mem, i: nat)
    requires Readable(c) && |SignedPfm(c)| <= 16384 && i < |m|
    requires CompWithinActive(LayoutOf(c), Chosen(es, ByLevel(level)))
    requires AnyStaticMarked(es) ==> CompWithinActive(LayoutOf(c), CapsuleRegions(c, StaticOnly, staging))
    ensures WdtRecovered(c, es, level, staging, pfm, m)[i]
         == var k, page := LayoutOf(c), i / 1024;
            var before := if MarkedFor(es, level, page) && Active(k, page) then Described(k, page, i % 1024) else m[i];
            if AnyStaticMarked(es) then RebuiltBy(c, Parse(c[520..]), true, false, staging, pfm, i, before) else before
  {
    var rs := CapsuleRegions(c, StaticOnly, staging);
    StaticMarkedIs(es);
    MarkedIs(es, level, i / 1024);
    WdtRecoveredWord(c, es, level, staging, pfm, m, i);
    SelectedIsCovered(Parse(c[520..]), StaticOnly, staging, i / 1024);
    hide Covered, Chosen, Active, Comp, Described, WdtRecovered, Inside, LayoutOf, SignedPfm, Selected, FixedWord, StaticMarked, AnyStaticMarked,
         MarkedFor, Entry.Dynamic;
    forall before: Word
      ensures FixedWord(LayoutOf(c), SignedPfm(c), rs, StaticOnly, pfm, i, before) == RebuiltBy(c, Parse(c[520..]), true, false, staging, pfm, i, before)
    {
      FixedIs(LayoutOf(c), SignedPfm(c), rs, StaticOnly, pfm, i, before);
    }
  }

  lemma StaticMarkedIs(es: seq<Entry>)
    ensures AnyStaticMarked(es) <==> StaticMarked(es)
  {
    forall e: Entry ensures IsStatic(e) && e.protection & 0x1C != 0 <==> MarksStatic(e) {
      ProtectionBits(e);
      hide IsStatic, Entry.Static;
    }
    hide IsStatic, MarksStatic;
    if e :| e in es && MarksStatic(e) {
      assert IsStatic(e) && e.protection & 0x1C != 0;
    }
  }

  lemma MarkedIs(es: seq<Entry>, bit: bv8, page: nat)
    ensures MarkedFor(es, bit, page) <==> exists e | e in es :: e.Dynamic() && e.protection & bit != 0 && Inside(e, page)
  {
    forall e: Entry ensures (IsDynamic(e) <==> e.Dynamic()) && (HoldsPage(e, page) <==> Inside(e, page)) {
      ProtectionBits(e);
      HoldsIsInside(e, page);
      hide *;
    }
    hide IsDynamic, HoldsPage, Inside, Entry.Dynamic;
    if e :| e in es && e.Dynamic() && e.protection & bit != 0 && Inside(e, page) {
      assert HoldsPage(e, page) && IsDynamic(e);
    }
    if e :| e in es && HoldsPage(e, page) && IsDynamic(e) && e.protection & bit != 0 {
      assert e.Dynamic() && Inside(e, page);
    }
  }

  lemma LevelCovers(es: seq<Entry>, level: bv8, page: nat)
    ensures Covered(Chosen(es, ByLevel(level)), page)
        <==> exists e | e in es :: e.Dynamic() && e.protection & level != 0 && Inside(e, page)
  {
    var rs := Chosen(es, ByLevel(level));
    hide Inside;
    if e :| e in es && e.Dynamic() && e.protection & level != 0 && Inside(e, page) {
      assert e in rs;
    }
  }

  lemma MarkedStep(body: seq<Word>, ptr: nat)
    requires AtDefinition(body, ptr)
    ensures var next := ptr + DefWords(body[ptr]);
            && next < |body| && Terminated(body[next..])
            && (StaticMarked(Parse(body[ptr..])) <==> MarksStatic(DefinitionAt(body, ptr)) || StaticMarked(Parse(body[next..])))
  {
    ParseHere(body, ptr);
    var e, rest := DefinitionAt(body, ptr), Parse(body[ptr + DefWords(body[ptr])..]);
    hide Parse, AtDefinition, DefinitionAt, DefWords, MarksStatic;
    assert forall x :: x in [e] + rest <==> x == e || x in rest;
  }

  lemma NoneMarked(body: seq<Word>, ptr: nat)
    requires ptr < |body| && !IsRule(body[ptr]) && !IsRegion(body[ptr])
    ensures Terminated(body[ptr..]) && !StaticMarked(Parse(body[ptr..]))
  {
  }

  // The loop of perform_wdt_recovery over the active manifest, whose body is at bodyAt
  method RecoverDynamicRegions(f: SpiFlash, capsule: nat, k: Layout, bodyAt: nat, level: bv8, ghost body: seq<Word>)
    returns (staticToo: bool)
    requires f.Valid() && Terminated(body) && WordsAt(f.mem[..], capsule, k.words) && WordsAt(f.mem[..], bodyAt, body)
    requires RegionsSafe(Chosen(Parse(body), ByLevel(level)), k, capsule, bodyAt, |body|, f.mem.Length)
    modifies f, f.mem
    ensures f.Valid() && f.mem[..] == RegionsImage(k, Chosen(Parse(body), ByLevel(level)), old(f.mem[..]))
    ensures staticToo == StaticMarked(Parse(body))
  {
    hide *;
    ghost var m, sel := f.mem[..], ByLevel(level);
    WalkStarts(k, capsule, bodyAt, body, sel, m);
    WalkWhere(k, capsule, bodyAt, body, sel, 0, m, m);
    var ptr := 0;
    staticToo := false;
    var w := ReadWord(f, bodyAt, 0, body);
    assert body[0..] == body;
    while IsRule(w) || IsRegion(w)
      invariant ptr < |body| && w == body[ptr] && f.Valid() && Walking(k, capsule, bodyAt, body, sel, ptr, m, f.mem[..])
      invariant Terminated(body[ptr..])
      invariant StaticMarked(Parse(body)) == (staticToo || StaticMarked(Parse(body[ptr..])))
      decreases |body| - ptr
    {
      WalkWhere(k, capsule, bodyAt, body, sel, ptr, m, f.mem[..]);
      DefinitionsAdvance(w);
      MarkedStep(body, ptr);
      var e, next := VisitDefinition(f, capsule, k, bodyAt, ptr, w, ByLevel(level), body, m);
      if MarksStatic(e) {
        staticToo := true;
      }
      WalkWhere(k, capsule, bodyAt, body, sel, next, m, f.mem[..]);
      ptr := next;
      w := ReadWord(f, bodyAt, ptr, body);
    }
    NoneMarked(body, ptr);
    WalkEnds(k, capsule, bodyAt, body, sel, ptr, m, f.mem[..]);
  }

  // The regions marked for a level can be rebuilt, and the static ones if any is marked
  predicate UsableAtLevel(c: seq<Word>, body: seq<Word>, level: bv8, staging: Word, capsule: nat, bodyAt: nat, pfm: nat, words: nat) {
    && Readable(c) && Terminated(body)
    && RegionsSafe(Chosen(Parse(body), ByLevel(level)), LayoutOf(c), capsule, bodyAt, |body|, words)
    && (StaticMarked(Parse(body)) ==> Usable(c, StaticOnly, staging, capsule, pfm, words))
  }

  // The part of perform_wdt_recovery that follows the authentication of the recovery capsule
  method RecoverAtLevel(f: SpiFlash, capsule: nat, n: nat, bodyAt: nat, level: bv8, staging: Word, pfm: nat,
                        ghost c: seq<Word>, ghost body: seq<Word>)
    requires f.Valid() && WordsAt(f.mem[..], capsule, c) && n == |c| && WordsAt(f.mem[..], bodyAt, body)
    requires UsableAtLevel(c, body, level, staging, capsule, bodyAt, pfm, f.mem.Length)
    modifies f, f.mem
    ensures f.Valid() && Readable(c) && Terminated(body)
    ensures f.mem[..] == WdtRecovered(c, Parse(body), level, staging, pfm, old(f.mem[..]))
  {
    ghost var m := f.mem[..];
    LevelParts(c, body, level, staging, capsule, bodyAt, pfm, m);
    hide *;
    var k := GetLayout(f, capsule, n, c);
    var staticToo := RecoverDynamicRegions(f, capsule, k, bodyAt, level, body);
    CapsuleSurvives(c, k, Chosen(Parse(body), ByLevel(level)), capsule, bodyAt, |body|, m);
    if staticToo {
      DecompressCapsule(f, capsule, n, StaticOnly, staging, pfm, c);
    }
    WdtInSteps(c, Parse(body), level, staging, pfm, m);
  }

  lemma LevelParts(c: seq<Word>, body: seq<Word>, level: bv8, staging: Word, capsule: nat, bodyAt: nat, pfm: nat, m: Mem)
    requires UsableAtLevel(c, body, level, staging, capsule, bodyAt, pfm, |m|)
    ensures Readable(c) && HasHeader(c) && LayoutOf(c).words == c && Terminated(body)
    ensures RegionsSafe(Chosen(Parse(body), ByLevel(level)), LayoutOf(c), capsule, bodyAt, |body|, |m|)
    ensures StaticMarked(Parse(body)) ==> Usable(c, StaticOnly, staging, capsule, pfm, |m|)
  {
    hide RegionsSafe, Terminated, Parse, SignedPayloadSize, PbcAt, StaticMarked, Usable;
  }

  lemma WdtInSteps(c: seq<Word>, es: seq<Entry>, level: bv8, staging: Word, pfm: nat, m: Mem)
    requires Readable(c)
    ensures HasHeader(c)
    ensures WdtRecovered(c, es, level, staging, pfm, m)
         == var image := RegionsImage(LayoutOf(c), Chosen(es, ByLevel(level)), m);
            if StaticMarked(es) then RebuiltFrom(c, StaticOnly, staging, pfm, image) else image
  {
    hide RegionsImage, RebuiltFrom, LayoutOf, StaticMarked;
  }
}
