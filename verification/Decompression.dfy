/**
 fw/code/inc/decompression.h: rebuilding a SPI region from a compressed capsule. A capsule holds
 two bitmaps with one bit for each 4KB page of the flash, and the pages whose bit is set in the
 second one, one after the other.
 */
module Decompression {
  import opened NorFlash
  import opened Sequences
  import opened SpiRwUtils
  import opened Bits

  // Where the parts of a capsule are: its words, and word offsets of the bitmaps and the pages
  datatype Layout = Layout(words: seq<Word>, active: nat, comp: nat, pages: nat)

  // get_pbc_ptr_from_signed_capsule: past both signatures and the manifest
  function PbcAt(c: seq<Word>): nat
    requires |c| >= 512
  {
    512 + c[257] as nat / 4
  }

  predicate HasHeader(c: seq<Word>) { |c| >= 512 && PbcAt(c) + 32 <= |c| }

  // get_active_bitmap, get_compression_bitmap and get_compressed_payload
  function LayoutOf(c: seq<Word>): Layout
    requires HasHeader(c)
  {
    var pbc := PbcAt(c);
    var words := c[pbc + 5] as nat / 8 / 4;
    Layout(c, pbc + 32, pbc + 32 + words, pbc + 32 + words + words)
  }

  // ---------------------------------------------------------------- bitmaps

  // 0b10000000 shifted right
  function BitMask(i: nat): bv8 {
    match i
    case 0 => 0x80 case 1 => 0x40 case 2 => 0x20 case 3 => 0x10
    case 4 => 8 case 5 => 4 case 6 => 2 case _ => 1
  }

  function BitmapByte(words: seq<Word>, base: nat, j: nat): bv8
    requires base + j / 4 < |words|
  {
    Lane(words[base + j / 4], j % 4)
  }

  predicate BitOfByte(b: bv8, i: nat) { b & BitMask(i) != 0 }

  // Bit i of a bitmap, the most significant bit of a byte first
  predicate BitmapBit(words: seq<Word>, base: nat, i: nat) {
    base + i / 8 / 4 < |words| && BitOfByte(BitmapByte(words, base, i / 8), i % 8)
  }

  predicate Active(k: Layout, page: nat) { BitmapBit(k.words, k.active, page) }

  predicate Comp(k: Layout, page: nat) { BitmapBit(k.words, k.comp, page) }

  // The words of one bitmap
  function BitmapWords(c: seq<Word>): nat
    requires HasHeader(c)
  {
    c[PbcAt(c) + 5] as nat / 8 / 4
  }

  // Both bitmaps lie inside the capsule, and no bit of the compression bitmap is set alone
  predicate BitmapsNested(c: seq<Word>) {
    && HasHeader(c)
    && var k, n := LayoutOf(c), BitmapWords(c);
    k.pages <= |c| && forall j: nat | j < n :: NestedAt(c, k.comp, k.active, j)
  }

  predicate NestedAt(c: seq<Word>, comp: nat, active: nat, j: nat) {
    comp + j < |c| && active + j < |c| && c[comp + j] & c[active + j] == c[comp + j]
  }

  // For the pages the bitmaps have bits for, nesting is a matter of the bitmaps alone
  lemma NestedBits(c: seq<Word>, page: nat)
    requires BitmapsNested(c) && page < 32 * BitmapWords(c)
    ensures Comp(LayoutOf(c), page) ==> Active(LayoutOf(c), page)
  {
    var k, n := LayoutOf(c), BitmapWords(c);
    assert k.words == c && k.comp == k.active + n && k.pages == k.comp + n;
    BitInWords(page, n);
    assert NestedAt(c, k.comp, k.active, page / 8 / 4);
    hide *;
    NestedBit(c, k.comp, k.active, page);
    ByBits(k, page);
  }

  lemma ByBits(k: Layout, page: nat)
    ensures Comp(k, page) <==> BitmapBit(k.words, k.comp, page)
    ensures Active(k, page) <==> BitmapBit(k.words, k.active, page)
  {
  }

  lemma NestedBit(words: seq<Word>, comp: nat, active: nat, i: nat)
    requires NestedAt(words, comp, active, i / 8 / 4) && i / 8 % 4 < 4
    ensures BitmapBit(words, comp, i) ==> BitmapBit(words, active, i)
  {
    hide Lane, BitOfByte;
    NestedLane(words[comp + i / 8 / 4], words[active + i / 8 / 4], i / 8 % 4, i % 8);
  }

  lemma NestedLane(c: Word, a: Word, lane: nat, i: nat)
    requires c & a == c && lane < 4
    ensures BitOfByte(Lane(c, lane), i) ==> BitOfByte(Lane(a, lane), i)
  {
    LaneOfAnd(c, a, lane);
    hide Lane, BitMask;
    NestedByte(Lane(c, lane), Lane(a, lane), BitMask(i));
  }

  lemma LaneOfAnd(c: Word, a: Word, lane: nat)
    requires c & a == c && lane < 4
    ensures Lane(c, lane) & Lane(a, lane) == Lane(c, lane)
  {
    if lane == 0 {
    } else if lane == 1 {
    } else if lane == 2 {
    }
  }

  lemma NestedByte(c: bv8, a: bv8, mask: bv8)
    requires c & a == c
    ensures c & mask != 0 ==> a & mask != 0
  {
  }

  // The number of compression bits set before a page
  function Rank(k: Layout, page: nat): nat {
    if page == 0 then 0 else Rank(k, page - 1) + if Comp(k, page - 1) then 1 else 0
  }

  // A word of the copy of a page in the capsule
  function PageWord(k: Layout, page: nat, offset: nat): Word {
    var at := k.pages + 1024 * Rank(k, page) + offset;
    if at < |k.words| then k.words[at] else ERASED
  }

  // Both bitmaps and all pages before hi are inside the capsule
  predicate Fits(k: Layout, hi: nat) {
    && k.active + hi / 8 / 4 < |k.words| && k.comp + hi / 8 / 4 < |k.words|
    && k.pages + 1024 * Rank(k, hi) <= |k.words|
  }

  // ---------------------------------------------------------------- what a region becomes

  // A page of the region is erased when its active bit is set, and then the page of the capsule is
  // programmed over it when its compression bit is set; other pages stay as they are
  function RegionWord(k: Layout, lo: nat, hi: nat, m: Mem, i: nat): Word
    requires i < |m|
  {
    var page := i / 1024;
    if !(lo <= page < hi) then m[i]
    else
      var base := if Active(k, page) then ERASED else m[i];
      if Comp(k, page) then Nor(base, PageWord(k, page, i % 1024)) else base
  }

  function RegionImage(k: Layout, lo: nat, hi: nat, m: Mem): (r: Mem)
    ensures |r| == |m|
  {
    seq(|m|, (i: nat) requires i < |m| => RegionWord(k, lo, hi, m, i))
  }

  // What a consistent capsule puts into a page, whatever was there before
  function Described(k: Layout, page: nat, offset: nat): Word {
    if Comp(k, page) then PageWord(k, page, offset) else ERASED
  }

  // A copied page ends equal to the payload page that the compression bits before it number, a
  // page only in the active bitmap ends all ones, every other page is as before
  lemma RegionPages(k: Layout, lo: nat, hi: nat, m: Mem, i: nat)
    requires i < |m| && (lo <= i / 1024 < hi && Comp(k, i / 1024) ==> Active(k, i / 1024))
    ensures RegionImage(k, lo, hi, m)[i]
         == if lo <= i / 1024 < hi && Active(k, i / 1024) then Described(k, i / 1024, i % 1024) else m[i]
  {
    hide Comp, Active, Rank, Nor;
    ErasedTakesAnyWord(PageWord(k, i / 1024, i % 1024));
  }

  // ---------------------------------------------------------------- erasing

  // The active pages among lo..b-1 erased
  function ActiveErased(k: Layout, lo: nat, b: nat, m: Mem): (r: Mem)
    ensures |r| == |m|
  {
    seq(|m|, (i: nat) requires i < |m| => if lo <= i / 1024 < b && Active(k, i / 1024) then ERASED else m[i])
  }

  lemma EraseRun(k: Layout, lo: nat, s: nat, b: nat, m: Mem)
    requires lo <= s <= b && forall p: nat | s <= p < b :: Active(k, p)
    ensures ErasePages(ActiveErased(k, lo, s, m), s, b) == ActiveErased(k, lo, b, m)
  {
    hide Active;
  }

  lemma EraseNothing(k: Layout, lo: nat, b: nat, m: Mem)
    requires !Active(k, b)
    ensures ActiveErased(k, lo, b + 1, m) == ActiveErased(k, lo, b, m)
  {
    hide Active;
  }

  lemma EraseStarts(k: Layout, lo: nat, m: Mem)
    ensures ActiveErased(k, lo, lo, m) == m
  {
    hide Active;
  }

  lemma ActiveErasedApart(k: Layout, lo: nat, b: nat, m: Mem, at: nat, data: seq<Word>)
    requires WordsAt(m, at, data) && lo <= b && (at + |data| <= 1024 * lo || 1024 * b <= at)
    ensures WordsAt(ActiveErased(k, lo, b, m), at, data)
  {
    hide Active;
  }

  lemma WholePages(n: nat)
    ensures PagesUpTo(4096 * n) == n
  {
  }

  method ReadBitmapByte(f: SpiFlash, capsule: nat, ghost c: seq<Word>, base: nat, j: nat) returns (b: bv8)
    requires WordsAt(f.mem[..], capsule, c) && base + j / 4 < |c|
    ensures b == BitmapByte(c, base, j)
  {
    hide Lane;
    assert f.mem[..][capsule..capsule + |c|][base + j / 4] == f.mem[capsule + base + j / 4];
    b := Lane(f.mem[capsule + base + j / 4], j % 4);
  }

  // erase_spi_region of whole pages s..b-1
  method EraseWholePages(f: SpiFlash, s: nat, b: nat)
    requires f.Valid() && s <= b && 1024 * b <= f.mem.Length
    modifies f, f.mem
    ensures f.Valid() && f.mem[..] == ErasePages(old(f.mem[..]), s, b)
  {
    hide *;
    WholePages(b - s);
    EraseSpiRegion(f, 4096 * s, 4096 * (b - s), s);
  }

  // What the first loop keeps: before bit b, start is the first page of a run of active pages not
  // yet erased, or 0xFFFFFFFF when there is none
  ghost predicate Erasing(k: Layout, lo: nat, start: nat, b: nat, m: Mem, now: Mem) {
    if start == 0xFFFF_FFFF then now == ActiveErased(k, lo, b, m)
    else lo <= start < b && now == ActiveErased(k, lo, start, m) && forall p: nat | start <= p < b :: Active(k, p)
  }

  lemma RunErased(k: Layout, lo: nat, start: nat, b: nat, m: Mem, now: Mem)
    requires Erasing(k, lo, start, b, m, now) && start != 0xFFFF_FFFF
    ensures start <= b && Erasing(k, lo, 0xFFFF_FFFF, b, m, ErasePages(now, start, b))
  {
    EraseRun(k, lo, start, b, m);
  }

  lemma VisitActive(k: Layout, lo: nat, start: nat, b: nat, m: Mem, now: Mem)
    requires Erasing(k, lo, start, b, m, now) && Active(k, b) && lo <= b < 0xFFFF_FFFF
    ensures Erasing(k, lo, if start == 0xFFFF_FFFF then b else start, b + 1, m, now)
  {
    hide Active, ActiveErased;
  }

  lemma VisitInactive(k: Layout, lo: nat, b: nat, m: Mem, now: Mem)
    requires Erasing(k, lo, 0xFFFF_FFFF, b, m, now) && !Active(k, b)
    ensures Erasing(k, lo, 0xFFFF_FFFF, b + 1, m, now)
  {
    EraseNothing(k, lo, b, m);
  }

  lemma ErasingApart(k: Layout, lo: nat, start: nat, b: nat, m: Mem, now: Mem, at: nat)
    requires Erasing(k, lo, start, b, m, now) && WordsAt(m, at, k.words) && lo <= b
    requires at + |k.words| <= 1024 * lo || 1024 * b <= at
    ensures WordsAt(now, at, k.words)
  {
    hide Active, ActiveErased, WordsAt;
    ActiveErasedApart(k, lo, if start == 0xFFFF_FFFF then b else start, m, at, k.words);
  }

  // The first loop: consecutive active pages are erased together
  method EraseActivePages(f: SpiFlash, capsule: nat, lo: nat, hi: nat, activeAt: nat, ghost k: Layout)
    requires f.Valid() && WordsAt(f.mem[..], capsule, k.words) && activeAt == k.active
    requires lo <= hi && 1024 * hi <= f.mem.Length && hi < 0xFFFF_FFFF && Fits(k, hi)
    requires capsule + |k.words| <= 1024 * lo || 1024 * hi <= capsule
    modifies f, f.mem
    ensures f.Valid() && f.mem[..] == ActiveErased(k, lo, hi, old(f.mem[..]))
  {
    ghost var m := f.mem[..];
    var start := 0xFFFF_FFFF;
    EraseStarts(k, lo, m);
    assert Erasing(k, lo, start, lo, m, f.mem[..]);
    var b := lo;
    while b < hi
      invariant lo <= b <= hi && f.Valid() && Erasing(k, lo, start, b, m, f.mem[..])
    {
      hide *;
      start := VisitBit(f, capsule, lo, hi, activeAt, start, b, k, m);
      b := b + 1;
    }
    if start != 0xFFFF_FFFF {
      RunErased(k, lo, start, hi, m, f.mem[..]);
      EraseWholePages(f, start, hi);
    }
  }

  // One round of that loop
  method VisitBit(f: SpiFlash, capsule: nat, lo: nat, hi: nat, activeAt: nat, start: nat, b: nat, ghost k: Layout, ghost m: Mem)
    returns (next: nat)
    requires f.Valid() && WordsAt(m, capsule, k.words) && activeAt == k.active
    requires lo <= b < hi < 0xFFFF_FFFF && 1024 * hi <= f.mem.Length && Fits(k, hi)
    requires capsule + |k.words| <= 1024 * lo || 1024 * hi <= capsule
    requires Erasing(k, lo, start, b, m, f.mem[..])
    modifies f, f.mem
    ensures f.Valid() && Erasing(k, lo, next, b + 1, m, f.mem[..])
  {
    hide *;
    ErasingApart(k, lo, start, b, m, f.mem[..], capsule);
    ByteOfBit(k, hi, b);
    next := start;
    var bits := ReadBitmapByte(f, capsule, k.words, activeAt, b / 8);
    if BitOfByte(bits, b % 8) {
      VisitActive(k, lo, start, b, m, f.mem[..]);
      if start == 0xFFFF_FFFF {
        next := b;
      }
    } else {
      if start != 0xFFFF_FFFF {
        RunErased(k, lo, start, b, m, f.mem[..]);
        EraseWholePages(f, start, b);
        next := 0xFFFF_FFFF;
      }
      VisitInactive(k, lo, b, m, f.mem[..]);
    }
  }

  lemma ByteOfBit(k: Layout, hi: nat, b: nat)
    requires b < hi && Fits(k, hi)
    ensures k.active + b / 8 / 4 < |k.words| && k.comp + b / 8 / 4 < |k.words|
    ensures Active(k, b) <==> BitOfByte(BitmapByte(k.words, k.active, b / 8), b % 8)
    ensures Comp(k, b) <==> BitOfByte(BitmapByte(k.words, k.comp, b / 8), b % 8)
  {
    hide BitOfByte, BitmapByte, Rank;
  }

  // ---------------------------------------------------------------- copying

  // The pages of the region before page cur whose compression bit is set, programmed
  function Copied(k: Layout, lo: nat, hi: nat, cur: nat, m: Mem): (r: Mem)
    ensures |r| == |m|
  {
    seq(|m|, (i: nat) requires i < |m| =>
      if lo <= i / 1024 < hi && i / 1024 < cur && Comp(k, i / 1024) then Nor(m[i], PageWord(k, i / 1024, i % 1024))
      else m[i])
  }

  // The pages of the payload that go to a page
  function PageData(k: Layout, page: nat): seq<Word>
    requires k.pages + 1024 * Rank(k, page) + 1024 <= |k.words|
  {
    k.words[k.pages + 1024 * Rank(k, page)..k.pages + 1024 * Rank(k, page) + 1024]
  }

  lemma {:induction false} RankGrows(k: Layout, a: nat, b: nat)
    requires a <= b
    ensures Rank(k, a) <= Rank(k, b)
  {
    if a < b {
      RankGrows(k, a, b - 1);
      hide Comp;
    }
  }

  lemma PageInside(k: Layout, hi: nat, cur: nat)
    requires Fits(k, hi) && cur < hi && Comp(k, cur)
    ensures k.pages + 1024 * Rank(k, cur) + 1024 <= |k.words|
  {
    hide Comp;
    RankGrows(k, cur + 1, hi);
  }

  lemma PageDataAt(k: Layout, page: nat)
    requires k.pages + 1024 * Rank(k, page) + 1024 <= |k.words|
    ensures |PageData(k, page)| == 1024
    ensures forall o: nat | o < 1024 :: PageData(k, page)[o] == PageWord(k, page, o)
  {
    hide Rank;
  }

  lemma CopyOnePage(k: Layout, lo: nat, hi: nat, cur: nat, m: Mem)
    requires lo <= cur < hi && Comp(k, cur) && 1024 * (cur + 1) <= |m|
    requires k.pages + 1024 * Rank(k, cur) + 1024 <= |k.words|
    ensures Programmed(Copied(k, lo, hi, cur, m), 1024 * cur, PageData(k, cur)) == Copied(k, lo, hi, cur + 1, m)
  {
    PageDataAt(k, cur);
    var now, data, next := Copied(k, lo, hi, cur, m), PageData(k, cur), Copied(k, lo, hi, cur + 1, m);
    hide Comp, Rank, PageWord, PageData, Nor;
    forall i: nat | i < |m| ensures Programmed(now, 1024 * cur, data)[i] == next[i] {
      if i / 1024 == cur {
        assert i - 1024 * cur == i % 1024;
      }
    }
  }

  lemma SkipPage(k: Layout, lo: nat, hi: nat, cur: nat, m: Mem)
    requires !(lo <= cur < hi) || !Comp(k, cur)
    ensures Copied(k, lo, hi, cur + 1, m) == Copied(k, lo, hi, cur, m)
  {
    hide Comp, PageWord, Nor;
  }

  lemma CopiedApart(k: Layout, lo: nat, hi: nat, cur: nat, m: Mem, at: nat)
    requires WordsAt(m, at, k.words) && (at + |k.words| <= 1024 * lo || 1024 * hi <= at)
    ensures WordsAt(Copied(k, lo, hi, cur, m), at, k.words)
  {
    hide Comp, PageWord, Nor;
  }

  // The page a payload page is copied to next
  function Dest(lo: nat, hi: nat, cur: nat): nat {
    if cur <= lo then lo else if cur < hi then cur else if lo < hi then hi else lo
  }

  // What the second loop keeps when it is about to look at bit cur
  ghost predicate Copying(k: Layout, capsule: nat, lo: nat, hi: nat, cur: nat, m: Mem, now: Mem, dest: nat, src: nat) {
    && now == Copied(k, lo, hi, cur, m)
    && dest == 4096 * Dest(lo, hi, cur)
    && src == capsule + k.pages + 1024 * Rank(k, cur)
  }

  lemma CopyStarts(k: Layout, capsule: nat, lo: nat, hi: nat, m: Mem)
    requires lo <= hi
    ensures Copying(k, capsule, lo, hi, 0, m, m, 4096 * lo, capsule + k.pages)
  {
    hide Comp, PageWord, Nor;
  }

  lemma CopySource(k: Layout, capsule: nat, lo: nat, hi: nat, cur: nat, m: Mem, now: Mem, dest: nat, src: nat)
    requires Copying(k, capsule, lo, hi, cur, m, now, dest, src)
    requires lo <= cur < hi && Comp(k, cur) && Fits(k, hi) && 1024 * hi <= |m| && WordsAt(m, capsule, k.words)
    requires capsule + |k.words| <= 1024 * lo || 1024 * hi <= capsule
    ensures k.pages + 1024 * Rank(k, cur) + 1024 <= |k.words|
    ensures |now| == |m| && dest / 4 == 1024 * cur
    ensures src + 1024 <= |now| && now[src..src + 1024] == PageData(k, cur)
    ensures 1024 * cur + 1024 <= src || src + 1024 <= 1024 * cur
  {
    PageInside(k, hi, cur);
    CopyingApart(k, capsule, lo, hi, cur, m, now, dest, src);
    CopyingWhere(k, capsule, lo, hi, cur, m, now, dest, src);
    PageDataInFlash(k, capsule, cur, now, src);
    hide *;
    PageApart(capsule, |k.words|, src, lo, hi, cur);
  }

  lemma PageDataInFlash(k: Layout, capsule: nat, cur: nat, now: Mem, src: nat)
    requires WordsAt(now, capsule, k.words) && src == capsule + k.pages + 1024 * Rank(k, cur)
    requires k.pages + 1024 * Rank(k, cur) + 1024 <= |k.words|
    ensures capsule <= src && src + 1024 <= capsule + |k.words| <= |now| && now[src..src + 1024] == PageData(k, cur)
  {
    hide Rank;
    PartOfSlice(now, capsule, k.words, k.pages + 1024 * Rank(k, cur), 1024);
  }

  lemma CopyingWhere(k: Layout, capsule: nat, lo: nat, hi: nat, cur: nat, m: Mem, now: Mem, dest: nat, src: nat)
    requires Copying(k, capsule, lo, hi, cur, m, now, dest, src) && lo <= cur < hi
    ensures |now| == |m| && dest / 4 == 1024 * cur && src == capsule + k.pages + 1024 * Rank(k, cur)
  {
    hide Comp, Rank, Copied;
  }

  lemma CopyStep(k: Layout, capsule: nat, lo: nat, hi: nat, cur: nat, m: Mem, now: Mem, dest: nat, src: nat)
    requires Copying(k, capsule, lo, hi, cur, m, now, dest, src)
    requires lo <= cur < hi && Comp(k, cur) && 1024 * hi <= |m|
    requires k.pages + 1024 * Rank(k, cur) + 1024 <= |k.words|
    ensures Copying(k, capsule, lo, hi, cur + 1, m, Programmed(now, 1024 * cur, PageData(k, cur)), dest + 4096, src + 1024)
  {
    CopyOnePage(k, lo, hi, cur, m);
    assert Rank(k, cur + 1) == Rank(k, cur) + 1;
    hide Comp, Rank, Copied, Programmed, PageData;
  }

  lemma PassStep(k: Layout, capsule: nat, lo: nat, hi: nat, cur: nat, m: Mem, now: Mem, dest: nat, src: nat)
    requires Copying(k, capsule, lo, hi, cur, m, now, dest, src) && lo <= hi
    requires !(lo <= cur < hi) || !Comp(k, cur)
    ensures Copying(k, capsule, lo, hi, cur + 1, m, now, if lo <= cur < hi then dest + 4096 else dest,
                    if Comp(k, cur) then src + 1024 else src)
  {
    SkipPage(k, lo, hi, cur, m);
    assert Rank(k, cur + 1) == Rank(k, cur) + if Comp(k, cur) then 1 else 0;
    hide Comp, Rank, Copied;
  }

  // One bit of the second loop
  method ProcessBit(f: SpiFlash, lo: nat, hi: nat, cur: nat, copyThisPage: bool, dest: nat, src: nat,
                    ghost capsule: nat, ghost k: Layout, ghost m: Mem)
    returns (nextDest: nat, nextSrc: nat)
    requires f.Valid() && Copying(k, capsule, lo, hi, cur, m, f.mem[..], dest, src) && copyThisPage == Comp(k, cur)
    requires lo <= hi && Fits(k, hi) && 1024 * hi <= |m| == f.mem.Length && WordsAt(m, capsule, k.words)
    requires capsule + |k.words| <= 1024 * lo || 1024 * hi <= capsule
    modifies f, f.mem
    ensures f.Valid() && Copying(k, capsule, lo, hi, cur + 1, m, f.mem[..], nextDest, nextSrc)
  {
    hide *;
    nextDest, nextSrc := dest, src;
    if lo <= cur && cur < hi {
      if copyThisPage {
        CopySource(k, capsule, lo, hi, cur, m, f.mem[..], dest, src);
        CopyStep(k, capsule, lo, hi, cur, m, f.mem[..], dest, src);
        CopyWords(f, dest / 4, src, 1024, PageData(k, cur));
      } else {
        PassStep(k, capsule, lo, hi, cur, m, f.mem[..], dest, src);
      }
      nextDest := nextDest + 4096;
    } else {
      PassStep(k, capsule, lo, hi, cur, m, f.mem[..], dest, src);
    }
    if copyThisPage {
      nextSrc := nextSrc + 1024;
    }
  }

  // The second loop: a byte of the compression bitmap at a time
  method CopyPages(f: SpiFlash, capsule: nat, lo: nat, hi: nat, compAt: nat, pagesAt: nat, ghost k: Layout)
    requires f.Valid() && WordsAt(f.mem[..], capsule, k.words) && compAt == k.comp && pagesAt == k.pages
    requires lo <= hi && 1024 * hi <= f.mem.Length && Fits(k, hi)
    requires capsule + |k.words| <= 1024 * lo || 1024 * hi <= capsule
    modifies f, f.mem
    ensures f.Valid() && f.mem[..] == Copied(k, lo, hi, hi, old(f.mem[..]))
  {
    hide *;
    ghost var m := f.mem[..];
    var dest, src: nat, cur, byte := 4096 * lo, capsule + pagesAt, 0, 0;
    CopyStarts(k, capsule, lo, hi, m);
    while cur < hi
      invariant cur == 8 * byte && 0 <= byte && 0 <= dest && f.Valid()
      invariant Copying(k, capsule, lo, hi, cur, m, f.mem[..], dest, src)
      decreases hi - cur
    {
      dest, src := ProcessByte(f, capsule, lo, hi, compAt, byte, dest, src, k, m);
      byte := byte + 1;
      cur := cur + 8;
    }
    PastTheEnd(k, capsule, lo, hi, cur, m, f.mem[..], dest, src);
  }

  lemma PastTheEnd(k: Layout, capsule: nat, lo: nat, hi: nat, cur: nat, m: Mem, now: Mem, dest: nat, src: nat)
    requires Copying(k, capsule, lo, hi, cur, m, now, dest, src) && hi <= cur
    ensures now == Copied(k, lo, hi, hi, m)
  {
    hide Comp, PageWord, Nor;
  }

  method ProcessByte(f: SpiFlash, capsule: nat, lo: nat, hi: nat, compAt: nat, byte: nat, dest: nat, src: nat,
                     ghost k: Layout, ghost m: Mem)
    returns (nextDest: nat, nextSrc: nat)
    requires f.Valid() && Copying(k, capsule, lo, hi, 8 * byte, m, f.mem[..], dest, src) && compAt == k.comp
    requires lo <= hi && 8 * byte < hi && Fits(k, hi) && 1024 * hi <= |m| == f.mem.Length && WordsAt(m, capsule, k.words)
    requires capsule + |k.words| <= 1024 * lo || 1024 * hi <= capsule
    modifies f, f.mem
    ensures f.Valid() && Copying(k, capsule, lo, hi, 8 * byte + 8, m, f.mem[..], nextDest, nextSrc)
  {
    hide *;
    CopyingApart(k, capsule, lo, hi, 8 * byte, m, f.mem[..], dest, src);
    ByteInside(k, hi, byte);
    var bits := ReadBitmapByte(f, capsule, k.words, compAt, byte);
    nextDest, nextSrc := dest, src;
    var mask: bv8 := 0x80;
    NextMask(0);
    for i := 0 to 8
      invariant f.Valid() && Copying(k, capsule, lo, hi, 8 * byte + i, m, f.mem[..], nextDest, nextSrc)
      invariant i < 8 ==> mask == BitMask(i)
    {
      BitOfThisByte(k, byte, i, bits, mask);
      nextDest, nextSrc := ProcessBit(f, lo, hi, 8 * byte + i, bits & mask != 0, nextDest, nextSrc, capsule, k, m);
      NextMask(i);
      mask := mask >> 1;
    }
  }

  lemma CopyingApart(k: Layout, capsule: nat, lo: nat, hi: nat, cur: nat, m: Mem, now: Mem, dest: nat, src: nat)
    requires Copying(k, capsule, lo, hi, cur, m, now, dest, src) && WordsAt(m, capsule, k.words)
    requires capsule + |k.words| <= 1024 * lo || 1024 * hi <= capsule
    ensures WordsAt(now, capsule, k.words)
  {
    CopiedApart(k, lo, hi, cur, m, capsule);
  }

  lemma ByteInside(k: Layout, hi: nat, byte: nat)
    requires 8 * byte < hi && Fits(k, hi)
    ensures k.comp + byte / 4 < |k.words|
  {
    hide Rank;
  }

  lemma BitOfThisByte(k: Layout, byte: nat, i: nat, bits: bv8, mask: bv8)
    requires i < 8 && k.comp + byte / 4 < |k.words| && bits == BitmapByte(k.words, k.comp, byte) && mask == BitMask(i)
    ensures bits & mask != 0 <==> Comp(k, 8 * byte + i)
  {
    assert (8 * byte + i) / 8 == byte && (8 * byte + i) % 8 == i;
    hide BitmapByte, BitMask;
  }

  lemma NextMask(i: nat)
    requires i < 8
    ensures BitMask(0) == 0x80 && (i + 1 < 8 ==> BitMask(i) >> 1 == BitMask(i + 1))
  {
  }

  // ---------------------------------------------------------------- the whole region

  lemma ErasedThenCopied(k: Layout, lo: nat, hi: nat, m: Mem)
    ensures Copied(k, lo, hi, hi, ActiveErased(k, lo, hi, m)) == RegionImage(k, lo, hi, m)
  {
    hide Comp, Active, PageWord, Nor;
  }

  // The capsule's words lie at capsule, on the same flash as the pages lo..hi-1 of the region
  method DecompressSpiRegionFromCapsule(f: SpiFlash, start: nat, end: nat, capsule: nat, at: Layout, lo: nat, hi: nat)
    requires f.Valid() && WordsAt(f.mem[..], capsule, at.words)
    requires start == 4096 * lo && end == 4096 * hi && lo <= hi && end <= 4 * f.mem.Length && hi < 0xFFFF_FFFF
    requires Fits(at, hi) && (capsule + |at.words| <= 1024 * lo || 1024 * hi <= capsule)
    modifies f, f.mem
    ensures f.Valid() && f.mem[..] == RegionImage(at, lo, hi, old(f.mem[..]))
  {
    hide *;
    ghost var m := f.mem[..];
    EraseActivePages(f, capsule, lo, hi, at.active, at);
    ActiveErasedApart(at, lo, hi, m, capsule, at.words);
    CopyPages(f, capsule, lo, hi, at.comp, at.pages, at);
    ErasedThenCopied(at, lo, hi, m);
  }
}
