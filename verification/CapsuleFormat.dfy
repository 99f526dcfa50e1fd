/**
 The format of an update capsule (fw/code/inc/pfm.h, pbc.h): a signed manifest and a compressed image behind
 a signature, and how an image is compressed. Whatever is compressed in this way is what the firmware
 rebuilds.
 */
module CapsuleFormat {
  import opened NorFlash
  import opened Sequences
  import opened SpiRwUtils
  import opened Bits
  import opened Ufm
  import opened Authentication
  import opened Pfm
  import opened Decompression
  import opened Rebuild
  import opened PfmValidation
  import opened CapsuleValidation

  // PBC_HEADER, whose reserved words do not matter
  datatype Header = Header(tag: Word, version: Word, pageSize: Word, patternSize: Word, pattern: Word, bits: Word, length: Word,
                           reserved: seq<Word>)
  {
    predicate Valid() { |reserved| == 25 }
    function Words(): seq<Word> { [tag, version, pageSize, patternSize, pattern, bits, length] + reserved }
  }

  // A capsule: signature, signature of the manifest, manifest, compression header, bitmap of the pages to
  // erase, bitmap of the pages to copy, and these pages
  datatype Capsule = Capsule(signature: seq<Word>, pfmSignature: seq<Word>, pfm: seq<Word>, header: Header,
                             active: seq<Word>, comp: seq<Word>, pages: seq<Word>)
  {
    // The lengths written in it are those of its parts
    predicate Valid() {
      && |signature| == 256 && |pfmSignature| == 256 && |pfm| >= 8 && header.Valid()
      && pfmSignature[1] as nat == 4 * |pfm|
      && |active| == |comp| > 0 && header.bits as nat == 32 * |active|
    }

    function FromHeader(): seq<Word> { header.Words() + (active + (comp + pages)) }

    function Words(): seq<Word> { signature + (pfmSignature + (pfm + FromHeader())) }
  }

  lemma PartAt(w: seq<Word>, at: nat, x: seq<Word>, rest: seq<Word>)
    requires at <= |w| && w[at..] == x + rest
    ensures at + |x| <= |w| && w[at..at + |x|] == x && w[at + |x|..] == rest
  {
    assert w[at..][..|x|] == x && w[at..][|x|..] == rest;
  }

  lemma HeaderWords(h: Header)
    requires h.Valid()
    ensures var w := h.Words();
            |w| == 32 && w[0] == h.tag && w[1] == h.version && w[2] == h.pageSize && w[5] == h.bits
  {
  }

  // Where the parts of a capsule are
  lemma PartsInOrder(c: Capsule)
    requires c.Valid()
    ensures var w, n, k := c.Words(), |c.pfm|, |c.active|;
            && |w| == 544 + n + 2 * k + |c.pages|
            && w[0..256] == c.signature && w[256..512] == c.pfmSignature && w[512..512 + n] == c.pfm
            && w[512 + n..544 + n] == c.header.Words() && w[544 + n..544 + n + k] == c.active
            && w[544 + n + k..544 + n + 2 * k] == c.comp && w[544 + n + 2 * k..] == c.pages
  {
    hide *;
    Shapes(c);
    HeaderWords(c.header);
    FrontParts(c);
    BackParts(c, c.Words(), 512 + |c.pfm|);
  }

  lemma FrontParts(c: Capsule)
    requires |c.signature| == 256 && |c.pfmSignature| == 256
    ensures var w, n := c.Words(), |c.pfm|;
            |w| >= 512 + n && w[0..256] == c.signature && w[256..512] == c.pfmSignature && w[512..512 + n] == c.pfm && w[512 + n..] == c.FromHeader()
  {
    hide Capsule.FromHeader;
    var w, r3 := c.Words(), c.FromHeader();
    var r2 := c.pfm + r3;
    var r1 := c.pfmSignature + r2;
    assert w[0..] == w;
    hide Capsule.Words;
    PartAt(w, 0, c.signature, r1);
    PartAt(w, 256, c.pfmSignature, r2);
    PartAt(w, 512, c.pfm, r3);
  }

  lemma BackParts(c: Capsule, w: seq<Word>, at: nat)
    requires at <= |w| && w[at..] == c.FromHeader() && |c.header.Words()| == 32 && |c.active| == |c.comp|
    ensures var k := |c.active|;
            && |w| == at + 32 + 2 * k + |c.pages| && w[at..at + 32] == c.header.Words() && w[at + 32..at + 32 + k] == c.active
            && w[at + 32 + k..at + 32 + 2 * k] == c.comp && w[at + 32 + 2 * k..] == c.pages
  {
    hide Header.Words;
    var k, q1 := |c.active|, c.comp + c.pages;
    var q2 := c.active + q1;
    assert c.FromHeader() == c.header.Words() + q2;
    hide Capsule.FromHeader;
    PartAt(w, at, c.header.Words(), q2);
    PartAt(w, at + 32, c.active, q1);
    PartAt(w, at + 32 + k, c.comp, c.pages);
  }

  lemma WordAt(w: seq<Word>, at: nat, x: seq<Word>, i: nat)
    requires at + |x| <= |w| && w[at..at + |x|] == x && i < |x|
    ensures w[at + i] == x[i]
  {
    assert w[at..at + |x|][i] == x[i];
  }

  // The bitmaps of k words each and the pages follow one another
  predicate IsLayout(l: Layout, w: seq<Word>, at: nat, k: nat) {
    l.words == w && l.active == at && l.comp == at + k && l.pages == at + 2 * k
  }

  // Everything that reads a capsule finds its parts: the bitmaps and pages, the signed manifest, and the
  // definitions in it
  lemma CapsuleIsRead(c: Capsule)
    requires c.Valid()
    ensures var w, n, k := c.Words(), |c.pfm|, |c.active|;
            && HasHeader(w) && IsLayout(LayoutOf(w), w, 544 + n, k)
            && HoldsManifest(w) && SignedPfm(w) == c.pfmSignature + c.pfm
            && (DefinitionsEnd(SignedPfm(w)) <==> Terminated(c.pfm[8..] + [ERASED]))
            && (DefinitionsEnd(SignedPfm(w)) ==> DefinitionsOf(SignedPfm(w)) == Parse(c.pfm[8..] + [ERASED]))
  {
    hide *;
    LayoutIsRead(c);
    SignedPfmIsRead(c);
    LengthsAre(c);
    BodyIsRead(c.pfmSignature, c.pfm);
  }

  lemma LayoutIsRead(c: Capsule)
    requires c.Valid()
    ensures var w, n, k := c.Words(), |c.pfm|, |c.active|;
            HasHeader(w) && IsLayout(LayoutOf(w), w, 544 + n, k)
  {
    hide *;
    PfmSignatureAt(c);
    HeaderAt(c);
    HeaderFields(c.header);
    LengthsAre(c);
    PartsRead(c.Words(), |c.pfm|, |c.active|, c.pfmSignature, c.header.Words());
  }

  lemma PartsRead(w: seq<Word>, n: nat, k: nat, p: seq<Word>, h: seq<Word>)
    requires |w| >= 544 + n && |p| == 256 && w[256..256 + |p|] == p && |h| == 32 && w[512 + n..512 + n + |h|] == h
    requires Counts(p[1], 4 * n) && Counts(h[5], 32 * k)
    ensures HasHeader(w) && PbcAt(w) == 512 + n && IsLayout(LayoutOf(w), w, 544 + n, k)
  {
    WordIn(w, 256, p, 1, 257);
    WordIn(w, 512 + n, h, 5, 512 + n + 5);
    hide *;
    HeaderIsRead(w, n, k, p[1], h[5]);
  }

  lemma LengthWord(c: Capsule)
    requires c.Valid()
    ensures |c.pfmSignature| == 256 && |c.Words()| >= 544 + |c.pfm| && WordIs(c.Words(), 257, c.pfmSignature[1])
  {
    hide *;
    Shapes(c);
    PfmSignatureAt(c);
    WordIn(c.Words(), 256, c.pfmSignature, 1, 257);
  }

  lemma PfmSignatureAt(c: Capsule)
    requires c.Valid()
    ensures |c.pfmSignature| == 256 && |c.Words()| >= 544 + |c.pfm| && c.Words()[256..256 + |c.pfmSignature|] == c.pfmSignature
  {
    PartsInOrder(c);
    Shapes(c);
    hide *;
  }

  lemma BitsWord(c: Capsule)
    requires c.Valid()
    ensures |c.Words()| >= 544 + |c.pfm| && WordIs(c.Words(), 512 + |c.pfm| + 5, c.header.bits)
  {
    hide *;
    HeaderAt(c);
    HeaderFields(c.header);
    HeaderWord(c, 5);
  }

  lemma HeaderAt(c: Capsule)
    requires c.Valid()
    ensures |c.Words()| >= 544 + |c.pfm| && |c.header.Words()| == 32
    ensures c.Words()[512 + |c.pfm|..512 + |c.pfm| + |c.header.Words()|] == c.header.Words()
  {
    PartsInOrder(c);
    HeaderWords(c.header);
    hide *;
  }

  lemma SignedPfmIsRead(c: Capsule)
    requires c.Valid()
    ensures HoldsManifest(c.Words()) && SignedPfm(c.Words()) == c.pfmSignature + c.pfm
  {
    hide *;
    LengthsAre(c);
    LengthWord(c);
    PfmSignatureAt(c);
    PfmAt(c);
    ManifestIsRead(c.Words(), c.pfmSignature, c.pfm, c.pfmSignature[1]);
  }

  predicate Counts(x: Word, n: nat) { x as nat == n }

  lemma LengthsAre(c: Capsule)
    requires c.Valid()
    ensures |c.pfmSignature| == 256 && |c.pfm| >= 8 && Counts(c.pfmSignature[1], 4 * |c.pfm|) && Counts(c.header.bits, 32 * |c.active|)
    ensures |c.active| == |c.comp| > 0
  {
  }

  lemma Shapes(c: Capsule)
    requires c.Valid()
    ensures c.header.Valid() && |c.signature| == |c.pfmSignature| == 256 && |c.pfm| >= 8 && |c.active| == |c.comp|
  {
  }

  lemma HeaderIsRead(w: seq<Word>, n: nat, k: nat, length: Word, bits: Word)
    requires |w| >= 544 + n && WordIs(w, 257, length) && WordIs(w, 512 + n + 5, bits) && Counts(length, 4 * n) && Counts(bits, 32 * k)
    ensures HasHeader(w) && PbcAt(w) == 512 + n && IsLayout(LayoutOf(w), w, 544 + n, k)
  {
  }

  lemma ManifestIsRead(w: seq<Word>, p: seq<Word>, pfm: seq<Word>, length: Word)
    requires |w| >= 512 + |pfm| && |p| == 256 && w[256..512] == p && w[512..512 + |pfm|] == pfm
    requires WordIs(w, 257, length) && Counts(length, 4 * |pfm|)
    ensures HoldsManifest(w) && SignedPfm(w) == p + pfm
  {
    assert w[256..512 + |pfm|] == w[256..512] + w[512..512 + |pfm|];
  }

  lemma BodyIsRead(p: seq<Word>, pfm: seq<Word>)
    requires |p| == 256 && |pfm| >= 8
    ensures DefinitionsEnd(p + pfm) <==> Terminated(pfm[8..] + [ERASED])
    ensures DefinitionsEnd(p + pfm) ==> DefinitionsOf(p + pfm) == Parse(pfm[8..] + [ERASED])
  {
    assert (p + pfm)[264..] == pfm[8..];
    hide Terminated, Parse;
  }

  // ---------------------------------------------------------------- bitmaps

  // Eight pages in a byte, the first one in the highest bit
  function ByteOf(b: seq<bool>): bv8
    requires |b| == 8
  {
    (if b[0] then 0x80 else 0) | (if b[1] then 0x40 else 0) | (if b[2] then 0x20 else 0) | (if b[3] then 0x10 else 0)
    | (if b[4] then 8 else 0) | (if b[5] then 4 else 0) | (if b[6] then 2 else 0) | (if b[7] then 1 else 0)
  }

  // The bitmap of a set of pages, 32 to a word
  function BitmapBytes(pages: nat -> bool, n: nat): (r: seq<bv8>)
    ensures |r| == 4 * n
  {
    seq(4 * n, (j: nat) requires j < 4 * n => ByteOf(Eight(pages, j)))
  }

  function Eight(pages: nat -> bool, j: nat): (r: seq<bool>)
    ensures |r| == 8
  {
    seq(8, (i: nat) requires i < 8 => pages(8 * j + i))
  }

  function Bitmap(pages: nat -> bool, n: nat): (r: seq<Word>)
    ensures |r| == n
  {
    WordsOf(BitmapBytes(pages, n))
  }

  lemma BitOfByteOf(b: seq<bool>, i: nat)
    requires |b| == 8 && i < 8
    ensures BitOfByte(ByteOf(b), i) <==> b[i]
  {
  }

  // A bitmap has the bits of its pages, wherever it lies
  lemma BitmapIsRead(words: seq<Word>, base: nat, pages: nat -> bool, n: nat, p: nat)
    requires base + n <= |words| && words[base..base + n] == Bitmap(pages, n) && p < 32 * n
    ensures BitmapBit(words, base, p) <==> pages(p)
  {
    var j, i := p / 8, p % 8;
    ByteIsRead(words, base, pages, n, j);
    BitOfByteOf(Eight(pages, j), i);
    EightAt(pages, j, i);
    BytesAre(pages, n, j);
    assert p == 8 * j + i;
    hide BitmapBytes, Bitmap, BitmapByte, ByteOf, BitOfByte, Eight;
  }

  lemma EightAt(pages: nat -> bool, j: nat, i: nat)
    requires i < 8
    ensures Eight(pages, j)[i] == pages(8 * j + i)
  {
  }

  lemma BytesAre(pages: nat -> bool, n: nat, j: nat)
    requires j < 4 * n
    ensures BitmapBytes(pages, n)[j] == ByteOf(Eight(pages, j))
  {
    hide ByteOf, Eight;
  }

  lemma ByteIsRead(words: seq<Word>, base: nat, pages: nat -> bool, n: nat, j: nat)
    requires base + n <= |words| && words[base..base + n] == Bitmap(pages, n) && j < 4 * n
    ensures base + j / 4 < |words| && BitmapByte(words, base, j) == BitmapBytes(pages, n)[j]
  {
    var b := BitmapBytes(pages, n);
    BytesOfWords(b, j);
    assert words[base..base + n][j / 4] == words[base + j / 4];
    hide BitmapBytes, WordsOf, Lane;
  }

  // ---------------------------------------------------------------- compressing an image

  // The pages of an image that are to be copied, one after the other
  function Compressed(image: Mem, copy: nat -> bool, n: nat): seq<Word>
    requires 1024 * n <= |image|
  {
    if n == 0 then []
    else Compressed(image, copy, n - 1) + if copy(n - 1) then image[1024 * (n - 1)..1024 * n] else []
  }

  // The capsule of an image: pages to erase, pages to copy, n words of bitmap
  predicate Compresses(c: Capsule, image: Mem, erase: nat -> bool, copy: nat -> bool, n: nat) {
    && c.Valid() && n == |c.active| && 32768 * n <= |image|
    && c.active == Bitmap(erase, n) && c.comp == Bitmap(copy, n) && c.pages == Compressed(image, copy, 32 * n)
  }

  // The compression bits of the pages before n are those of the pages to copy
  predicate CopyBits(k: Layout, copy: nat -> bool, n: nat) { forall p: nat | p < n :: Comp(k, p) <==> copy(p) }

  // The place of a page in the payload is the number of copied pages before it
  lemma {:induction false} CompressedRank(k: Layout, image: Mem, copy: nat -> bool, n: nat)
    requires 1024 * n <= |image| && CopyBits(k, copy, n)
    ensures |Compressed(image, copy, n)| == 1024 * Rank(k, n)
  {
    if n > 0 {
      CompressedRank(k, image, copy, n - 1);
      hide Comp;
    }
  }

  lemma CompressedPage(k: Layout, image: Mem, copy: nat -> bool, n: nat, page: nat, o: nat, at: nat)
    requires 1024 * n <= |image| && CopyBits(k, copy, n) && page < n && copy(page) && o < 1024 && at == 1024 * Rank(k, page) + o
    ensures at < |Compressed(image, copy, n)| && Compressed(image, copy, n)[at] == image[1024 * page + o]
  {
    hide *;
    FewerBits(k, copy, n, page);
    CompressedRank(k, image, copy, page);
    CompressedIs(image, copy, page + 1);
    CompressedGrows(image, copy, page + 1, n);
    LastPage(Compressed(image, copy, page), image, page, o, at);
    InFront(Compressed(image, copy, page + 1), Compressed(image, copy, n), at);
  }

  lemma {:induction false} CompressedGrows(image: Mem, copy: nat -> bool, a: nat, b: nat)
    requires a <= b && 1024 * b <= |image|
    ensures Compressed(image, copy, a) <= Compressed(image, copy, b)
    decreases b
  {
    if a < b {
      CompressedGrows(image, copy, a, b - 1);
      CompressedIs(image, copy, b);
      hide Compressed;
    }
  }

  lemma FewerBits(k: Layout, copy: nat -> bool, n: nat, less: nat)
    requires CopyBits(k, copy, n) && less <= n
    ensures CopyBits(k, copy, less)
  {
    hide Comp;
  }

  lemma CompressedIs(image: Mem, copy: nat -> bool, n: nat)
    requires 0 < n && 1024 * n <= |image|
    ensures var before := Compressed(image, copy, n - 1);
            && before <= Compressed(image, copy, n)
            && (copy(n - 1) ==> Compressed(image, copy, n) == before + image[1024 * (n - 1)..1024 * (n - 1) + 1024])
  {
  }

  lemma LastPage(before: seq<Word>, image: Mem, page: nat, o: nat, at: nat)
    requires 1024 * page + 1024 <= |image| && o < 1024 && at == |before| + o
    ensures var all := before + image[1024 * page..1024 * page + 1024]; at < |all| && all[at] == image[1024 * page + o]
  {
  }

  lemma InFront(before: seq<Word>, all: seq<Word>, at: nat)
    requires at < |before| && before <= all
    ensures all[at] == before[at]
  {
  }

  // The parts of such a capsule as its readers see them
  lemma BitmapsInPlace(c: Capsule, image: Mem, erase: nat -> bool, copy: nat -> bool, n: nat)
    requires Compresses(c, image, erase, copy, n)
    ensures HasHeader(c.Words())
    ensures var k := LayoutOf(c.Words());
            && k.words == c.Words() && k.active + n <= |k.words| && k.comp + n <= |k.words| && k.pages <= |k.words|
            && k.words[k.active..k.active + n] == Bitmap(erase, n) && k.words[k.comp..k.comp + n] == Bitmap(copy, n)
            && k.words[k.pages..] == Compressed(image, copy, 32 * n)
  {
    PartsInOrder(c);
    LayoutIsRead(c);
    hide Capsule.Words, LayoutOf, Bitmap, Compressed, HasHeader;
  }

  // The capsule describes the image that was compressed: its bitmaps have the bits of the pages to erase and
  // to copy, and each copied page is found where it was put
  lemma CompressedImageIsDescribed(c: Capsule, image: Mem, erase: nat -> bool, copy: nat -> bool, n: nat, page: nat, o: nat)
    requires Compresses(c, image, erase, copy, n) && page < 32 * n && o < 1024
    ensures HasHeader(c.Words()) && 1024 * page + o < |image|
    ensures var k := LayoutOf(c.Words());
            && (Active(k, page) <==> erase(page)) && (Comp(k, page) <==> copy(page))
            && Described(k, page, o) == if copy(page) then image[1024 * page + o] else ERASED
  {
    hide *;
    BitmapsInPlace(c, image, erase, copy, n);
    LargeEnough(c, image, erase, copy, n, page, o);
    DescribedBy(LayoutOf(c.Words()), image, erase, copy, n, page, o);
  }

  lemma DescribedBy(k: Layout, image: Mem, erase: nat -> bool, copy: nat -> bool, n: nat, page: nat, o: nat)
    requires k.active + n <= |k.words| && k.comp + n <= |k.words| && k.pages <= |k.words| && 1024 * (32 * n) <= |image|
    requires k.words[k.active..k.active + n] == Bitmap(erase, n) && k.words[k.comp..k.comp + n] == Bitmap(copy, n)
    requires k.words[k.pages..] == Compressed(image, copy, 32 * n) && page < 32 * n && o < 1024 && 1024 * page + o < |image|
    ensures (Active(k, page) <==> erase(page)) && (Comp(k, page) <==> copy(page))
    ensures Described(k, page, o) == if copy(page) then image[1024 * page + o] else ERASED
  {
    hide *;
    BitmapIsRead(k.words, k.active, erase, n, page);
    ByBits(k, page);
    CompressionBits(k, copy, n);
    BitOf(k, copy, 32 * n, page);
    if copy(page) {
      CompressedPage(k, image, copy, 32 * n, page, o, 1024 * Rank(k, page) + o);
    }
    DescribedIs(k, page, o, Compressed(image, copy, 32 * n));
  }

  lemma CompressionBits(k: Layout, copy: nat -> bool, n: nat)
    requires k.comp + n <= |k.words| && k.words[k.comp..k.comp + n] == Bitmap(copy, n)
    ensures CopyBits(k, copy, 32 * n)
  {
    forall p: nat | p < 32 * n ensures Comp(k, p) <==> copy(p) {
      BitmapIsRead(k.words, k.comp, copy, n, p);
      ByBits(k, p);
    }
    hide Comp;
  }

  lemma BitOf(k: Layout, copy: nat -> bool, n: nat, page: nat)
    requires CopyBits(k, copy, n) && page < n
    ensures Comp(k, page) <==> copy(page)
  {
    hide Comp;
  }

  lemma LargeEnough(c: Capsule, image: Mem, erase: nat -> bool, copy: nat -> bool, n: nat, page: nat, o: nat)
    requires Compresses(c, image, erase, copy, n) && page < 32 * n && o < 1024
    ensures 1024 * (32 * n) <= |image| && 1024 * page + o < |image|
  {
  }

  lemma DescribedIs(k: Layout, page: nat, o: nat, pages: seq<Word>)
    requires k.pages <= |k.words| && k.words[k.pages..] == pages && (Comp(k, page) ==> 1024 * Rank(k, page) + o < |pages|)
    ensures Described(k, page, o) == if Comp(k, page) then pages[1024 * Rank(k, page) + o] else ERASED
  {
    if Comp(k, page) {
      assert k.words[k.pages..][1024 * Rank(k, page) + o] == k.words[k.pages + (1024 * Rank(k, page) + o)];
    }
    hide Comp, Rank;
  }

  // What a word of a flash becomes that is rebuilt from the capsule of an image: of the regions its manifest
  // has rebuilt, copied pages come back word for word and pages to erase end blank; the 64KB of the active
  // manifest hold the signed manifest; everything else is as before
  ghost function Uncompressed(c: Capsule, image: Mem, erase: nat -> bool, copy: nat -> bool, fixed: bool, dynamic: bool, staging: Word,
                              pfm: nat, i: nat, before: Word): Word
    requires i < |image| && |c.pfm| >= 8 && Terminated(c.pfm[8..] + [ERASED])
  {
    var page, s := i / 1024, c.pfmSignature + c.pfm;
    if fixed && pfm <= page < pfm + 16 then (if i - 1024 * pfm < |s| then s[i - 1024 * pfm] else ERASED)
    else if Selected(Parse(c.pfm[8..] + [ERASED]), fixed, dynamic, staging, page) && erase(page) then (if copy(page) then image[i] else ERASED)
    else before
  }

  // A capsule of an image rebuilds that image
  lemma CompressThenRebuild(c: Capsule, image: Mem, erase: nat -> bool, copy: nat -> bool, n: nat, mode: Mode, staging: Word, pfm: nat,
                            m: Mem, i: nat)
    requires Compresses(c, image, erase, copy, n) && i < |m| && i < 32768 * n && (copy(i / 1024) ==> erase(i / 1024))
    requires c.header.tag == 0x5F50_4243 && |c.pfm| >= 8 && Terminated(c.pfm[8..] + [ERASED]) && |c.pfm| <= 16128
    ensures i < |image| && Readable(c.Words())
    ensures RebuiltFrom(c.Words(), mode, staging, pfm, m)[i]
         == Uncompressed(c, image, erase, copy, mode.TakesStatic(), mode.TakesDynamic(), staging, pfm, i, m[i])
  {
    hide *;
    var w, page, o := c.Words(), i / 1024, i % 1024;
    PageAndOffset(i, n);
    CompressesParts(c, image, erase, copy, n);
    CompressedImageIsDescribed(c, image, erase, copy, n, page, o);
    CapsuleIsRead(c);
    DefinitionsRead(c);
    LengthsAre(c);
    RebuiltByManifest(w, mode, staging, pfm, m, i);
    UncompressedIs(c, LayoutOf(w), image, erase, copy, mode.TakesStatic(), mode.TakesDynamic(), staging, pfm, i, m[i]);
  }

  lemma PageAndOffset(i: nat, n: nat)
    requires i < 32768 * n
    ensures i / 1024 < 32 * n && i % 1024 < 1024 && 1024 * (i / 1024) + i % 1024 == i
  {
  }

  lemma CompressesParts(c: Capsule, image: Mem, erase: nat -> bool, copy: nat -> bool, n: nat)
    requires Compresses(c, image, erase, copy, n)
    ensures c.Valid() && n == |c.active| && 32768 * n <= |image|
  {
  }

  lemma UncompressedIs(c: Capsule, k: Layout, image: Mem, erase: nat -> bool, copy: nat -> bool, fixed: bool, dynamic: bool,
                       staging: Word, pfm: nat, i: nat, before: Word)
    requires i < |image| && |c.pfm| >= 8 && Terminated(c.pfm[8..] + [ERASED])
    requires HasHeader(c.Words()) && HoldsManifest(c.Words()) && k == LayoutOf(c.Words()) && SignedPfm(c.Words()) == c.pfmSignature + c.pfm
    requires (Active(k, i / 1024) <==> erase(i / 1024)) && 1024 * (i / 1024) + i % 1024 == i
    requires Described(k, i / 1024, i % 1024) == if copy(i / 1024) then image[1024 * (i / 1024) + i % 1024] else ERASED
    ensures RebuiltBy(c.Words(), Parse(c.pfm[8..] + [ERASED]), fixed, dynamic, staging, pfm, i, before)
         == Uncompressed(c, image, erase, copy, fixed, dynamic, staging, pfm, i, before)
  {
    hide Capsule.Words, LayoutOf, SignedPfm, Selected, Active, Described, Parse, Terminated, HasHeader, HoldsManifest;
  }

  lemma DefinitionsRead(c: Capsule)
    requires c.Valid() && c.header.tag == 0x5F50_4243 && |c.pfm| >= 8 && Terminated(c.pfm[8..] + [ERASED])
    ensures Readable(c.Words())
    ensures HasHeader(c.Words()) && HoldsManifest(c.Words()) && HoldsBody(c.Words()) && |c.Words()| > 520 && Terminated(c.Words()[520..])
    ensures Parse(c.Words()[520..]) == Parse(c.pfm[8..] + [ERASED])
  {
    hide *;
    CapsuleIsRead(c);
    CapsuleIsReadable(c);
    TagWord(c);
    HeaderStarts(c);
    HeaderAt(c);
    IsWord(c.Words(), PbcAt(c.Words()), c.header.tag);
    SameDefinitions(c.Words());
    ReadableParts(c.Words());
  }

  // The compression header ends the definitions of the manifest
  lemma CapsuleIsReadable(c: Capsule)
    requires c.Valid() && c.header.tag == 0x5F50_4243 && |c.pfm| >= 8 && Terminated(c.pfm[8..] + [ERASED])
    ensures Readable(c.Words())
  {
    var rest := c.header.Words()[1..] + (c.active + (c.comp + c.pages));
    BodyFollows(c, rest);
    CapsuleIsRead(c);
    PbcTag();
    hide *;
    EndsAnywhere(c.pfm[8..], c.header.tag, rest);
    MakesReadable(c.Words());
  }

  lemma BodyFollows(c: Capsule, rest: seq<Word>)
    requires c.Valid() && rest == c.header.Words()[1..] + (c.active + (c.comp + c.pages))
    ensures |c.Words()| > 520 && c.Words()[520..] == c.pfm[8..] + [c.header.tag] + rest
  {
    hide *;
    Shapes(c);
    HeaderWords(c.header);
    var tail := c.FromHeader();
    HeaderSplits(c, rest);
    WordsSplit(c);
    Behind(c.signature + c.pfmSignature, c.pfm, tail, 8);
    Regrouped(c.pfm[8..], c.header.tag, rest);
  }

  lemma HeaderSplits(c: Capsule, rest: seq<Word>)
    requires c.header.Valid() && |c.header.Words()| == 32 && rest == c.header.Words()[1..] + (c.active + (c.comp + c.pages))
    ensures c.FromHeader() == [c.header.tag] + rest
  {
    var h, r := c.header.Words(), c.active + (c.comp + c.pages);
    assert h == [c.header.tag] + h[1..];
    hide Header.Words;
    assert ([c.header.tag] + h[1..]) + r == [c.header.tag] + (h[1..] + r);
  }

  lemma WordsSplit(c: Capsule)
    requires c.Valid()
    ensures c.Words() == (c.signature + c.pfmSignature) + (c.pfm + c.FromHeader()) && |c.signature + c.pfmSignature| == 512
  {
    hide Capsule.FromHeader;
  }

  lemma Regrouped(a: seq<Word>, x: Word, rest: seq<Word>)
    ensures a + ([x] + rest) == a + [x] + rest
  {
  }

  lemma Behind(a: seq<Word>, b: seq<Word>, tail: seq<Word>, n: nat)
    requires n <= |b|
    ensures (a + (b + tail))[|a| + n..] == b[n..] + tail
  {
  }

  lemma MakesReadable(w: seq<Word>)
    requires HasHeader(w) && HoldsManifest(w) && |w| > 520 && Terminated(w[520..])
    ensures Readable(w)
  {
    hide HasHeader, HoldsManifest, Terminated;
  }

  lemma ReadableParts(w: seq<Word>)
    requires Readable(w)
    ensures HasHeader(w) && HoldsManifest(w) && HoldsBody(w) && |w| > 520 && Terminated(w[520..])
  {
    hide HasHeader, HoldsManifest, Terminated;
  }

  predicate WordIs(w: seq<Word>, i: nat, x: Word) { i < |w| && w[i] == x }

  // A word of the compression header
  lemma HeaderWord(c: Capsule, j: nat)
    requires c.Valid() && j < 32
    ensures |c.header.Words()| == 32 && WordIs(c.Words(), 512 + |c.pfm| + j, c.header.Words()[j])
  {
    HeaderAt(c);
    hide *;
    WordIn(c.Words(), 512 + |c.pfm|, c.header.Words(), j, 512 + |c.pfm| + j);
  }

  lemma IsWord(w: seq<Word>, i: nat, x: Word)
    ensures WordIs(w, i, x) <==> i < |w| && w[i] == x
  {
  }

  lemma HeaderFields(h: Header)
    requires |h.Words()| == 32
    ensures var w := h.Words(); w[0] == h.tag && w[1] == h.version && w[2] == h.pageSize && w[5] == h.bits
  {
  }

  lemma TagWord(c: Capsule)
    requires c.Valid()
    ensures HasHeader(c.Words()) && WordIs(c.Words(), PbcAt(c.Words()), c.header.tag)
  {
    hide *;
    HeaderWord(c, 0);
    HeaderFields(c.header);
    HeaderStarts(c);
  }

  lemma HeaderStarts(c: Capsule)
    requires c.Valid()
    ensures HasHeader(c.Words()) && PbcAt(c.Words()) == 512 + |c.pfm| + 0
  {
    LengthsAre(c);
    LengthWord(c);
    BitsWord(c);
    hide *;
    HeaderIsRead(c.Words(), |c.pfm|, |c.active|, c.pfmSignature[1], c.header.bits);
  }

  // ---------------------------------------------------------------- a capsule in a flash

  // The admission of an update finds the SVN and the compression header of a capsule that lies in a flash
  lemma CapsuleInFlash(c: Capsule, m: Mem, at: nat)
    requires c.Valid() && WordsAt(m, at, c.Words())
    ensures at + 514 <= |m| && PfmSvn(m, at) == (c.pfm[1] & 0xFF) as nat
    ensures PbcValid(m, at) <==> Acceptable(c.header)
  {
    hide *;
    SvnInFlash(c, m, at);
    HeaderOfCapsule(c, m, at);
  }

  lemma HeaderOfCapsule(c: Capsule, m: Mem, at: nat)
    requires c.Valid() && WordsAt(m, at, c.Words())
    ensures PbcValid(m, at) <==> Acceptable(c.header)
  {
    hide *;
    var w := c.Words();
    HeaderWord(c, 0);
    HeaderFields(c.header);
    LengthsAre(c);
    LengthWord(c);
    Placed(m, at, w, 257, c.pfmSignature[1]);
    FieldInFlash(c, m, at, 0, c.header.tag);
    FieldInFlash(c, m, at, 1, c.header.version);
    FieldInFlash(c, m, at, 2, c.header.pageSize);
    FieldInFlash(c, m, at, 5, c.header.bits);
    HeaderInFlash(m, at, |c.pfm|, c.pfmSignature[1], c.header);
  }

  lemma FieldInFlash(c: Capsule, m: Mem, at: nat, j: nat, x: Word)
    requires c.Valid() && WordsAt(m, at, c.Words()) && j < 32 && |c.header.Words()| == 32 && c.header.Words()[j] == x
    ensures at + 512 + |c.pfm| + 32 <= |m| && WordIs(m, at + (512 + |c.pfm| + j), x)
  {
    hide *;
    HeaderWord(c, j);
    HeaderWord(c, 31);
    Placed(m, at, c.Words(), 512 + |c.pfm| + j, x);
    Placed(m, at, c.Words(), 512 + |c.pfm| + 31, c.header.Words()[31]);
    Inside(m, at + (512 + |c.pfm| + 31), c.header.Words()[31]);
  }

  lemma Inside(m: Mem, i: nat, x: Word)
    requires WordIs(m, i, x)
    ensures i < |m|
  {
  }

  predicate Acceptable(h: Header) { h.tag == 0x5F50_4243 && h.version == 2 && h.pageSize == 0x1000 && h.bits % 8 == 0 }

  lemma SvnInFlash(c: Capsule, m: Mem, at: nat)
    requires c.Valid() && WordsAt(m, at, c.Words())
    ensures |c.pfm| >= 8 && at + 514 <= |m| && PfmSvn(m, at) == (c.pfm[1] & 0xFF) as nat
  {
    hide *;
    SvnWord(c);
    Placed(m, at, c.Words(), 513, c.pfm[1]);
    SvnIs(m, at, c.pfm[1]);
  }

  lemma SvnWord(c: Capsule)
    requires c.Valid()
    ensures |c.pfm| >= 8 && WordIs(c.Words(), 513, c.pfm[1])
  {
    hide *;
    PfmAt(c);
    LengthsAre(c);
    WordIn(c.Words(), 512, c.pfm, 1, 513);
  }

  lemma WordIn(w: seq<Word>, at: nat, x: seq<Word>, i: nat, j: nat)
    requires at + |x| <= |w| && w[at..at + |x|] == x && i < |x| && j == at + i
    ensures WordIs(w, j, x[i])
  {
    assert w[at..at + |x|][i] == x[i];
  }

  lemma PfmAt(c: Capsule)
    requires c.Valid()
    ensures 512 + |c.pfm| <= |c.Words()| && c.Words()[512..512 + |c.pfm|] == c.pfm
  {
    PartsInOrder(c);
    hide *;
  }

  lemma Placed(m: Mem, at: nat, w: seq<Word>, i: nat, x: Word)
    requires WordsAt(m, at, w) && WordIs(w, i, x)
    ensures at + |w| <= |m| && WordIs(m, at + i, x)
  {
    assert m[at..at + |w|][i] == w[i];
  }

  lemma SvnIs(m: Mem, at: nat, x: Word)
    requires WordIs(m, at + 513, x)
    ensures at + 514 <= |m| && PfmSvn(m, at) == (x & 0xFF) as nat
  {
  }

  lemma HeaderInFlash(m: Mem, at: nat, n: nat, length: Word, h: Header)
    requires at + 544 + n <= |m| && WordIs(m, at + 257, length) && Counts(length, 4 * n)
    requires WordIs(m, at + (512 + n + 0), h.tag) && WordIs(m, at + (512 + n + 1), h.version)
    requires WordIs(m, at + (512 + n + 2), h.pageSize) && WordIs(m, at + (512 + n + 5), h.bits)
    ensures PbcValid(m, at) <==> Acceptable(h)
  {
    HeaderPlace(m, at, n, length);
    hide Counts, PbcOffset;
  }

  lemma HeaderPlace(m: Mem, at: nat, n: nat, length: Word)
    requires at + 544 + n <= |m| && WordIs(m, at + 257, length) && Counts(length, 4 * n)
    ensures at + 258 <= |m| && PbcOffset(m, at) == at + (512 + n)
  {
  }
}
