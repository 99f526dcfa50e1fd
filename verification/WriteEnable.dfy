/**
 The write enable memory of the SPI filter: one bit for each 16KB page of the flash
 (apply_spi_write_protection_and_smbus_rules in fw/code/inc/pfm_utils.h, and the overrides of
 fw/code/inc/spi_rw_utils.h).
 */
module WriteEnable {
  import opened NorFlash
  import opened Sequences
  import opened SpiRwUtils
  import opened Bits
  import opened Pfm
  import opened PfmWalk

  // ---------------------------------------------------------------- what the memory should hold

  // The regions of a manifest in order, whatever rules lie between them
  function Regions(es: seq<Entry>): (rs: seq<Entry>)
    ensures forall e | e in rs :: e.SpiRegion?
  {
    if es == [] then [] else (if es[0].SpiRegion? then [es[0]] else []) + Regions(es[1..])
  }

  // The last byte of 16KB page p lies in a region
  predicate HoldsLastByte(e: Entry, p: nat)
    requires e.SpiRegion?
  {
    Start(e) <= 16384 * p + 16383 < End(e)
  }

  // SPI_REGION_PROTECT_MASK_WRITE_ALLOWED
  predicate AllowsWrite(e: Entry)
    requires e.SpiRegion?
  {
    e.protection & 2 != 0
  }

  // A page may be written when the region of its last byte may be
  predicate Writable(rs: seq<Entry>, p: nat)
    requires forall e | e in rs :: e.SpiRegion?
  {
    exists e | e in rs :: HoldsLastByte(e, p) && AllowsWrite(e)
  }

  // The regions follow one another from byte address from on
  predicate Contiguous(rs: seq<Entry>, from: nat)
    decreases |rs|
  {
    rs == [] || (rs[0].SpiRegion? && Start(rs[0]) == from <= End(rs[0]) && Contiguous(rs[1..], End(rs[0])))
  }

  function EndOf(rs: seq<Entry>, from: nat): (end: nat)
    requires Contiguous(rs, from)
    ensures from <= end
    decreases |rs|
  {
    if rs == [] then from else EndOf(rs[1..], End(rs[0]))
  }

  // Pages of later regions lie after the start of those regions
  lemma {:induction false} LaterPages(rs: seq<Entry>, from: nat, p: nat)
    requires Contiguous(rs, from) && 16384 * p + 16383 < from
    ensures forall e | e in rs :: e.SpiRegion? && !HoldsLastByte(e, p)
    decreases |rs|
  {
    if rs != [] {
      LaterPages(rs[1..], End(rs[0]), p);
      hide Start, End;
    }
  }

  lemma {:induction false} AllRegions(rs: seq<Entry>, from: nat)
    requires Contiguous(rs, from)
    ensures forall e | e in rs :: e.SpiRegion?
    decreases |rs|
  {
    if rs != [] {
      AllRegions(rs[1..], End(rs[0]));
      hide Contiguous;
    }
  }

  // ---------------------------------------------------------------- the memory

  // IOWR to the write enable memory, with the positions written so far
  class WriteEnableMemory {
    const mem: array<Word>
    ghost var commits: seq<nat>

    constructor (words: nat)
      ensures fresh(mem) && mem.Length == words && commits == []
    {
      mem := new Word[words];
      commits := [];
    }

    method Commit(pos: nat, word: Word)
      requires pos < mem.Length
      modifies this, mem
      ensures mem[..] == old(mem[..])[pos := word] && commits == old(commits) + [pos]
    {
      mem[pos] := word;
      commits := commits + [pos];
    }
  }

  function Upto(n: nat): (s: seq<nat>)
    ensures |s| == n && forall i | 0 <= i < n :: s[i] == i
  {
    if n == 0 then [] else Upto(n - 1) + [n - 1]
  }

  // The bits before page 32 * pos are right, and each word before pos was committed once, in order
  ghost predicate Done(allowed: nat -> bool, pos: nat, we: seq<Word>, commits: seq<nat>) {
    && pos <= |we| && commits == Upto(pos)
    && forall w: nat, b: nat | w < pos && b < 32 :: Bit(we[w], b) <==> allowed(32 * w + b)
  }

  // The partly built word for position pos has the bits of its first n pages
  ghost predicate Collected(allowed: nat -> bool, word: Word, pos: nat, n: nat) {
    forall b: nat | b < 32 :: Bit(word, b) <==> b < n && allowed(32 * pos + b)
  }

  lemma CommitDone(allowed: nat -> bool, pos: nat, we: seq<Word>, commits: seq<nat>, word: Word)
    requires Done(allowed, pos, we, commits) && Collected(allowed, word, pos, 32) && pos < |we|
    ensures Done(allowed, pos + 1, we[pos := word], commits + [pos])
  {
    hide Bit;
  }

  // ---------------------------------------------------------------- one region

  // Pages s..e-1 are all allowed or all refused
  ghost predicate Uniform(allowed: nat -> bool, s: nat, e: nat, allow: bool) {
    forall p: nat | s <= p < e :: allowed(p) == allow
  }

  // word |= (1 << first) | ... | (1 << last - 1)
  method SetBits(word: Word, first: nat, last: nat) returns (r: Word)
    requires last <= 32
    ensures forall b: nat | b < 32 :: Bit(r, b) <==> Bit(word, b) || first <= b < last
  {
    hide *;
    r := word;
    var bit := first;
    while bit < last
      invariant first <= bit && if first < last then bit <= last else bit == first
      invariant forall b: nat | b < 32 :: Bit(r, b) <==> Bit(word, b) || first <= b < bit
    {
      r := SetBit(r, bit);
      bit := bit + 1;
    }
  }

  method SetBit(word: Word, bit: nat) returns (r: Word)
    requires bit < 32
    ensures forall b: nat | b < 32 :: Bit(r, b) <==> Bit(word, b) || b == bit
  {
    hide *;
    var mask := Mask(bit);
    r := word | mask;
    forall b: nat | b < 32 ensures Bit(r, b) <==> Bit(word, b) || b == bit {
      BitOfOr(word, mask, b);
      BitOfMask(bit, b);
    }
  }

  lemma NoBits()
    ensures forall b: nat | b < 32 :: !Bit(0, b) && Bit(0xFFFF_FFFF, b)
  {
    hide *;
    forall b: nat | b < 32 ensures !Bit(0, b) && Bit(0xFFFF_FFFF, b) {
      BitOfOnes(b);
    }
  }

  // The last word of a region is always left for the next one: its pages end before bit 31
  lemma LastWordIsOpen(s: nat, e: nat)
    requires s <= e
    ensures s / 32 <= e / 32 && e % 32 < 32 && 32 * (e / 32) <= e < 32 * (e / 32) + 32
  {
  }

  // A word strictly inside a region
  method MiddleWord(pos: nat, allow: bool, ghost allowed: nat -> bool, ghost s: nat, ghost e: nat) returns (word: Word)
    requires s <= 32 * pos && 32 * pos + 32 <= e && Uniform(allowed, s, e, allow)
    ensures Collected(allowed, word, pos, 32)
  {
    NoBits();
    hide Bit;
    word := 0;
    if allow {
      word := 0xFFFF_FFFF;
    }
  }

  // The first or the last word of a region, up to page last of that word
  method EdgeWord(word: Word, pos: nat, first: nat, last: nat, allow: bool, ghost allowed: nat -> bool, ghost s: nat, ghost e: nat)
    returns (r: Word)
    requires last <= 32 && s <= 32 * pos + first && 32 * pos + last <= e && first <= last
    requires Collected(allowed, word, pos, first) && Uniform(allowed, s, e, allow)
    ensures Collected(allowed, r, pos, last)
  {
    hide Bit;
    r := word;
    if allow {
      r := SetBits(r, first, last);
    }
  }

  lemma EmptyCollected(allowed: nat -> bool, pos: nat)
    ensures Collected(allowed, 0, pos, 0)
  {
    NoBits();
    hide Bit;
  }

  // One round of the loop over the words of a region
  method VisitWord(we: WriteEnableMemory, pos: nat, word: Word, s: nat, e: nat, allow: bool, ghost allowed: nat -> bool)
    returns (nextPos: nat, nextWord: Word)
    requires s <= e && s / 32 <= pos <= e / 32 && e / 32 <= we.mem.Length && Uniform(allowed, s, e, allow)
    requires Done(allowed, pos, we.mem[..], we.commits)
    requires pos == s / 32 ==> Collected(allowed, word, pos, s % 32)
    modifies we, we.mem
    ensures Done(allowed, nextPos, we.mem[..], we.commits)
    ensures pos < e / 32 ==> nextPos == pos + 1
    ensures pos == e / 32 ==> nextPos == pos && Collected(allowed, nextWord, pos, e % 32)
  {
    hide *;
    WordOfPage(s); WordOfPage(e);
    nextPos, nextWord := pos, word;
    if pos != s / 32 && pos != e / 32 {
      nextWord := MiddleWord(pos, allow, allowed, s, e);
    } else {
      var first, last := s % 32, e % 32;
      if pos != s / 32 {
        first := 0;
        nextWord := 0;
        EmptyCollected(allowed, pos);
      }
      if pos != e / 32 {
        last := 32;
      }
      nextWord := EdgeWord(nextWord, pos, first, last, allow, allowed, s, e);
      if last != 32 {
        return;
      }
    }
    CommitDone(allowed, pos, we.mem[..], we.commits, nextWord);
    we.Commit(pos, nextWord);
    nextPos := pos + 1;
  }

  // The part of the loop body for a region of pages s..e-1
  method ProtectRegion(we: WriteEnableMemory, pos: nat, word: Word, s: nat, e: nat, allow: bool, ghost allowed: nat -> bool)
    returns (nextPos: nat, nextWord: Word)
    requires s <= e && pos == s / 32 && e / 32 <= we.mem.Length && Uniform(allowed, s, e, allow)
    requires Done(allowed, pos, we.mem[..], we.commits) && Collected(allowed, word, pos, s % 32)
    modifies we, we.mem
    ensures nextPos == e / 32
    ensures Done(allowed, nextPos, we.mem[..], we.commits) && Collected(allowed, nextWord, nextPos, e % 32)
  {
    hide *;
    LastWordIsOpen(s, e);
    nextPos, nextWord := pos, word;
    var iter := s / 32;
    while iter <= e / 32
      invariant s / 32 <= iter <= e / 32 + 1 && nextPos == (if iter <= e / 32 then iter else e / 32)
      invariant Done(allowed, nextPos, we.mem[..], we.commits)
      invariant iter == s / 32 ==> Collected(allowed, nextWord, nextPos, s % 32)
      invariant iter == e / 32 + 1 ==> Collected(allowed, nextWord, nextPos, e % 32)
    {
      nextPos, nextWord := VisitWord(we, nextPos, nextWord, s, e, allow, allowed);
      iter := iter + 1;
    }
  }

  // ---------------------------------------------------------------- the whole manifest

  // In a contiguous list only one region holds the last byte of a page
  lemma {:induction false} OneHolder(rs: seq<Entry>, from: nat, e: Entry, p: nat)
    requires Contiguous(rs, from) && e in rs && e.SpiRegion? && HoldsLastByte(e, p)
    ensures forall x | x in rs :: x.SpiRegion? && (HoldsLastByte(x, p) ==> x == e)
    decreases |rs|
  {
    hide Start, End;
    AllRegions(rs, from);
    var next := End(rs[0]);
    if 16384 * p + 16383 < next {
      LaterPages(rs[1..], next, p);
    } else {
      assert !HoldsLastByte(rs[0], p);
      OneHolder(rs[1..], next, e, p);
    }
  }

  function AllowedIn(rs: seq<Entry>): nat -> bool
    requires forall e | e in rs :: e.SpiRegion?
  {
    (p: nat) => Writable(rs, p)
  }

  lemma RegionUniform(rs: seq<Entry>, e: Entry)
    requires Contiguous(rs, 0) && e in rs && forall x | x in rs :: x.SpiRegion?
    ensures Uniform(AllowedIn(rs), Start(e) / 16384, End(e) / 16384, AllowsWrite(e))
  {
    hide Start, End, Contiguous, AllowsWrite;
    forall p: nat | Start(e) / 16384 <= p < End(e) / 16384
      ensures AllowedIn(rs)(p) == AllowsWrite(e)
    {
      LastByteOfPage(Start(e), End(e), p);
      OneHolder(rs, 0, e, p);
    }
  }

  // What the loop over the definitions keeps: at is the address where the regions seen so far end
  ghost predicate Protecting(body: seq<Word>, ptr: nat, at: nat, pos: nat, word: Word, we: seq<Word>, commits: seq<nat>) {
    && ptr < |body| && Terminated(body) && Terminated(body[ptr..])
    && var rs, rest := Regions(Parse(body)), Regions(Parse(body[ptr..]));
    && Contiguous(rs, 0) && Contiguous(rest, at) && EndOf(rest, at) == EndOf(rs, 0)
    && (forall e | e in rest :: e in rs)
    && pos == at / 16384 / 32
    && Done(AllowedIn(rs), pos, we, commits) && Collected(AllowedIn(rs), word, pos, at / 16384 % 32)
  }

  lemma ProtectStarts(body: seq<Word>, we: seq<Word>)
    requires Terminated(body) && Contiguous(Regions(Parse(body)), 0)
    ensures Protecting(body, 0, 0, 0, 0, we, [])
  {
    assert body[0..] == body && body != [];
    EmptyCollected(AllowedIn(Regions(Parse(body))), 0);
    hide Parse, Regions, Contiguous, Terminated, Bit, Collected;
  }

  lemma PassRule(body: seq<Word>, ptr: nat, at: nat, pos: nat, word: Word, we: seq<Word>, commits: seq<nat>)
    requires Protecting(body, ptr, at, pos, word, we, commits) && AtDefinition(body, ptr) && DefinitionAt(body, ptr).SmbusRule?
    ensures Protecting(body, ptr + DefWords(body[ptr]), at, pos, word, we, commits)
  {
    ParseHere(body, ptr);
    var e, rest := DefinitionAt(body, ptr), Parse(body[ptr + DefWords(body[ptr])..]);
    assert Regions([e] + rest) == Regions(rest) by {
      assert ([e] + rest)[1..] == rest;
    }
    hide Parse, Regions, Contiguous, Terminated, Done, Collected, DefWords, DefinitionAt, AtDefinition;
  }

  // The region at hand, and what is left once it is in the memory
  lemma NextRegion(body: seq<Word>, ptr: nat, at: nat, pos: nat, word: Word, we: seq<Word>, commits: seq<nat>)
    requires Protecting(body, ptr, at, pos, word, we, commits) && AtDefinition(body, ptr) && DefinitionAt(body, ptr).SpiRegion?
    ensures var e, rs, next := DefinitionAt(body, ptr), Regions(Parse(body)), ptr + DefWords(body[ptr]);
            && next < |body| && Terminated(body[next..]) && e in rs && Start(e) == at <= End(e) && Contiguous(rs, 0)
            && var rest := Regions(Parse(body[next..]));
            && Contiguous(rest, End(e)) && EndOf(rest, End(e)) == EndOf(rs, 0) && forall x | x in rest :: x in rs
  {
    ParseHere(body, ptr);
    var e, rest := DefinitionAt(body, ptr), Parse(body[ptr + DefWords(body[ptr])..]);
    assert Regions([e] + rest) == [e] + Regions(rest) by {
      assert ([e] + rest)[1..] == rest;
    }
    assert ([e] + Regions(rest))[1..] == Regions(rest);
    assert forall x :: x in [e] + Regions(rest) <==> x == e || x in Regions(rest);
    hide Parse, Regions, Terminated, Done, Collected, DefWords, DefinitionAt, AtDefinition, Start, End;
  }

  lemma ProtectParts(body: seq<Word>, ptr: nat, at: nat, pos: nat, word: Word, we: seq<Word>, commits: seq<nat>)
    requires Protecting(body, ptr, at, pos, word, we, commits)
    ensures ptr < |body| && Terminated(body) && Terminated(body[ptr..])
    ensures AtDefinition(body, ptr) <==> IsRule(body[ptr]) || IsRegion(body[ptr])
    ensures pos == at / 16384 / 32
    ensures var allowed := AllowedIn(Regions(Parse(body)));
            Done(allowed, pos, we, commits) && Collected(allowed, word, pos, at / 16384 % 32)
  {
    hide Parse, Regions, Contiguous, Done, Collected, IsRule, IsRegion;
  }

  // The branch of the loop for a region definition
  method ProtectDefinition(we: WriteEnableMemory, e: Entry, pos: nat, word: Word,
                           ghost body: seq<Word>, ghost ptr: nat, ghost at: nat)
    returns (nextPos: nat, nextWord: Word)
    requires Protecting(body, ptr, at, pos, word, we.mem[..], we.commits) && AtDefinition(body, ptr)
    requires e == DefinitionAt(body, ptr) && e.SpiRegion?
    requires EndOf(Regions(Parse(body)), 0) <= 524288 * we.mem.Length
    modifies we, we.mem
    ensures Protecting(body, ptr + DefWords(body[ptr]), End(e), nextPos, nextWord, we.mem[..], we.commits)
  {
    ProtectParts(body, ptr, at, pos, word, we.mem[..], we.commits);
    NextRegion(body, ptr, at, pos, word, we.mem[..], we.commits);
    hide *;
    ghost var rs := Regions(Parse(body));
    RegionUniform(rs, e);
    PagesInOrder(Start(e), End(e), EndOf(rs, 0), we.mem.Length);
    nextPos, nextWord := ProtectRegion(we, pos, word, Start(e) / 16384, End(e) / 16384, AllowsWrite(e), AllowedIn(rs));
    ProtectNext(body, ptr + DefWords(body[ptr]), End(e), nextPos, nextWord, we.mem[..], we.commits);
  }

  lemma ProtectNext(body: seq<Word>, ptr: nat, at: nat, pos: nat, word: Word, we: seq<Word>, commits: seq<nat>)
    requires ptr < |body| && Terminated(body) && Terminated(body[ptr..])
    requires var rs, rest := Regions(Parse(body)), Regions(Parse(body[ptr..]));
             && Contiguous(rs, 0) && Contiguous(rest, at) && EndOf(rest, at) == EndOf(rs, 0) && forall e | e in rest :: e in rs
    requires pos == at / 16384 / 32
    requires var allowed := AllowedIn(Regions(Parse(body)));
             Done(allowed, pos, we, commits) && Collected(allowed, word, pos, at / 16384 % 32)
    ensures Protecting(body, ptr, at, pos, word, we, commits)
  {
    hide Parse, Regions, Contiguous, Terminated, Done, Collected;
  }

  lemma ProtectEnds(body: seq<Word>, ptr: nat, at: nat, pos: nat, word: Word, we: seq<Word>, commits: seq<nat>)
    requires Protecting(body, ptr, at, pos, word, we, commits) && !IsRule(body[ptr]) && !IsRegion(body[ptr])
    ensures Terminated(body) && Contiguous(Regions(Parse(body)), 0) && at == EndOf(Regions(Parse(body)), 0)
    ensures Done(AllowedIn(Regions(Parse(body))), at / 16384 / 32, we, commits)
  {
    assert Parse(body[ptr..]) == [];
    hide IsRule, IsRegion, Done, Collected, Terminated;
  }

  // The bits of every page of the flash are right, and each word was written exactly once, the
  // lowest first
  ghost predicate Exact(rs: seq<Entry>, total: nat, we: seq<Word>, commits: seq<nat>)
    requires forall e | e in rs :: e.SpiRegion?
  {
    && total / 524288 <= |we| && commits == Upto(total / 524288)
    && forall p: nat | p / 32 < total / 524288 :: Bit(we[p / 32], p % 32) <==> Writable(rs, p)
  }

  lemma DoneBit(allowed: nat -> bool, pos: nat, we: seq<Word>, commits: seq<nat>, w: nat, b: nat)
    requires Done(allowed, pos, we, commits) && w < pos && b < 32
    ensures Bit(we[w], b) <==> allowed(32 * w + b)
  {
    hide Bit;
  }

  lemma DonePage(rs: seq<Entry>, pos: nat, we: seq<Word>, commits: seq<nat>, p: nat)
    requires (forall e | e in rs :: e.SpiRegion?) && Done(AllowedIn(rs), pos, we, commits) && p / 32 < pos
    ensures p / 32 < |we| && (Bit(we[p / 32], p % 32) <==> Writable(rs, p))
  {
    WordOfPage(p);
    DoneBit(AllowedIn(rs), pos, we, commits, p / 32, p % 32);
    assert AllowedIn(rs)(p) == Writable(rs, p);
    hide Bit, Writable;
  }

  lemma DoneIsExact(rs: seq<Entry>, total: nat, we: seq<Word>, commits: seq<nat>)
    requires (forall e | e in rs :: e.SpiRegion?) && Done(AllowedIn(rs), total / 16384 / 32, we, commits)
    ensures Exact(rs, total, we, commits)
  {
    WordsOfFlash(total);
    hide Bit, Writable, AllowedIn;
    forall p: nat | p / 32 < total / 524288 ensures Bit(we[p / 32], p % 32) <==> Writable(rs, p) {
      DonePage(rs, total / 524288, we, commits, p);
    }
  }

  // The regions cover the flash up to a multiple of 512KB; they need not be aligned to 16KB
  method ApplySpiWriteProtection(f: SpiFlash, bodyAt: nat, we: WriteEnableMemory, ghost body: seq<Word>)
    requires Terminated(body) && WordsAt(f.mem[..], bodyAt, body) && we.commits == [] && we.mem != f.mem
    requires Contiguous(Regions(Parse(body)), 0)
    requires EndOf(Regions(Parse(body)), 0) % 524288 == 0 && EndOf(Regions(Parse(body)), 0) <= 524288 * we.mem.Length
    modifies we, we.mem
    ensures Exact(Regions(Parse(body)), EndOf(Regions(Parse(body)), 0), we.mem[..], we.commits)
  {
    hide *;
    ProtectStarts(body, we.mem[..]);
    ProtectParts(body, 0, 0, 0, 0, we.mem[..], []);
    var ptr, pos, word: Word := 0, 0, 0;
    ghost var at := 0;
    var w := ReadWord(f, bodyAt, 0, body);
    while IsRule(w) || IsRegion(w)
      invariant ptr < |body| && w == body[ptr] && 0 <= pos && 0 <= at && WordsAt(f.mem[..], bodyAt, body)
      invariant Protecting(body, ptr, at, pos, word, we.mem[..], we.commits)
      decreases |body| - ptr
    {
      ProtectParts(body, ptr, at, pos, word, we.mem[..], we.commits);
      DefinitionsAdvance(w);
      var e := ReadDefinition(f, bodyAt, ptr, w, body);
      if e.SpiRegion? {
        pos, word := ProtectDefinition(we, e, pos, word, body, ptr, at);
        at := End(e);
      } else {
        PassRule(body, ptr, at, pos, word, we.mem[..], we.commits);
      }
      ptr := ptr + DefWords(w);
      ProtectParts(body, ptr, at, pos, word, we.mem[..], we.commits);
      w := ReadWord(f, bodyAt, ptr, body);
    }
    ProtectEnds(body, ptr, at, pos, word, we.mem[..], we.commits);
    DoneIsExact(Regions(Parse(body)), at, we.mem[..], we.commits);
  }

  // ---------------------------------------------------------------- overrides

  // Two words of zeros from a position on
  function Overridden(we: seq<Word>, pos: nat): seq<Word>
    requires pos + 1 < |we|
  {
    we[pos := 0][pos + 1 := 0]
  }

  // write_protect_cpld_recovery_region
  method WriteProtectCpldRecoveryRegion(we: WriteEnableMemory)
    requires we.mem.Length >= 256
    modifies we, we.mem
    ensures we.mem[..] == Overridden(old(we.mem[..]), 254)
  {
    we.Commit(0x7F0_0000 / 524288, 0);
    we.Commit(0x7F0_0000 / 524288 + 1, 0);
  }

  // write_protect_cpld_staging_region
  method WriteProtectCpldStagingRegion(we: WriteEnableMemory, staging: nat)
    requires (staging + 0x300_0000) / 524288 + 1 < we.mem.Length
    modifies we, we.mem
    ensures we.mem[..] == Overridden(old(we.mem[..]), (staging + 0x300_0000) / 524288)
  {
    var pos := (staging + 0x300_0000) / 524288;
    we.Commit(pos, 0);
    we.Commit(pos + 1, 0);
  }

  // An override makes the 1MB of its two words read-only and changes no other page
  lemma OverrideBits(we: seq<Word>, pos: nat, p: nat)
    requires pos + 1 < |we| && p / 32 < |we|
    ensures Bit(Overridden(we, pos)[p / 32], p % 32) <==> Bit(we[p / 32], p % 32) && !(32 * pos <= p < 32 * pos + 64)
  {
    BitOfOnes(p % 32);
    hide Bit;
  }

  // With the override of the CPLD recovery region, exactly the 1MB at 0x7F00000 is forced
  // read-only; every other page is as the manifest says
  lemma ProtectedFlash(rs: seq<Entry>, total: nat, we: seq<Word>, commits: seq<nat>, p: nat)
    requires (forall e | e in rs :: e.SpiRegion?) && Exact(rs, total, we, commits) && total >= 0x800_0000 && p / 32 < total / 524288
    ensures |we| >= 256
    ensures Bit(Overridden(we, 254)[p / 32], p % 32) <==> Writable(rs, p) && !(0x7F0_0000 <= 16384 * p < 0x800_0000)
  {
    hide Bit, Writable;
    OverrideBits(we, 254, p);
    RecoveryPages(p);
  }

  // The override of the staging region forces every byte of the 1MB capsule area read-only exactly
  // when that area starts at a multiple of 512KB
  ghost predicate CoversArea(pos: nat, area: nat) {
    forall byte: nat | area <= byte < area + 0x10_0000 :: 32 * pos <= byte / 16384 < 32 * pos + 64
  }

  lemma StagingOverrideCoversIff(staging: nat)
    ensures CoversArea((staging + 0x300_0000) / 524288, staging + 0x300_0000) <==> staging % 524288 == 0
  {
    var area := staging + 0x300_0000;
    if staging % 524288 == 0 {
      forall byte: nat | area <= byte < area + 0x10_0000
        ensures 32 * (area / 524288) <= byte / 16384 < 32 * (area / 524288) + 64
      {
        AlignedArea(staging, area, byte);
      }
    } else {
      LastByteOutside(staging, area);
      assert area <= area + 0xF_FFFF < area + 0x10_0000;
    }
  }

  // Staging at 0x2AF0000 leaves the last byte of its CPLD capsule area writable
  lemma StagingOverrideCanMissTheEnd()
    ensures !CoversArea((0x2AF_0000 + 0x300_0000) / 524288, 0x2AF_0000 + 0x300_0000)
  {
    StagingOverrideCoversIff(0x2AF_0000);
  }
}
