/**
 fw/code/inc/spi_rw_utils.h: greedy erase of a region, and copies of signed payloads.
 */
module SpiRwUtils {
  import opened NorFlash
  import opened Sequences

  // ---------------------------------------------------------------- erase_spi_region

  // The commands erase_spi_region issues from the given 4KB page up to byte address end
  function GreedyErase(page: nat, end: nat): seq<Op>
    decreases end - 4096 * page
  {
    if end <= 4096 * page then []
    else [if BigStep(page, end) then Erase64K(page / 16) else Erase4K(page)]
         + GreedyErase(NextPage(page, end), end)
  }

  predicate BigStep(page: nat, end: nat) {
    end >= 4096 * page + 65536 && page % 16 == 0
  }

  function NextPage(page: nat, end: nat): nat {
    if BigStep(page, end) then page + 16 else page + 1
  }

  // The number of 4KB pages that bytes 0..n-1 touch
  function PagesUpTo(n: nat): nat { (n + 4095) / 4096 }

  // The memory after erasing exactly the 4KB pages lo..hi-1
  function ErasePages(m: Mem, lo: nat, hi: nat): (r: Mem)
    ensures |r| == |m|
  {
    seq(|m|, (i: nat) requires i < |m| => if lo <= i / 1024 < hi then ERASED else m[i])
  }

  lemma {:induction false} GreedyEraseIsExact(m: Mem, page: nat, end: nat)
    ensures Run(m, GreedyErase(page, end)) == ErasePages(m, page, PagesUpTo(end))
    decreases end - 4096 * page
  {
    if 4096 * page < end {
      var ops := GreedyErase(page, end);
      var next := NextPage(page, end);
      GreedyEraseIsExact(Apply(m, ops[0]), next, end);
      assert ops[1..] == GreedyErase(next, end);
      assert next <= PagesUpTo(end);
      assert Apply(m, ops[0]) == ErasePages(m, page, next);
    }
  }

  // One round of the loop of erase_spi_region
  method EraseNextSector(f: SpiFlash, addr: nat, end: nat, ghost page: nat) returns (next: nat)
    requires f.Valid() && addr == 4096 * page && addr < end <= 4 * f.mem.Length
    modifies f, f.mem
    ensures next == 4096 * NextPage(page, end)
    ensures f.Valid() && f.log == old(f.log) + [GreedyErase(page, end)[0]]
  {
    hide *;
    SectorAt(addr, page, end);
    if end - addr >= 65536 && addr % 65536 == 0 {
      f.ExecuteSpiEraseCmd(addr, true);
      next := addr + 65536;
    } else {
      f.ExecuteSpiEraseCmd(addr, false);
      next := addr + 4096;
    }
  }

  lemma SectorAt(addr: nat, page: nat, end: nat)
    requires addr == 4096 * page && addr < end
    ensures GreedyErase(page, end) != []
    ensures var sector64 := end - addr >= 65536 && addr % 65536 == 0;
            && GreedyErase(page, end)[0] == (if sector64 then Erase64K(addr / 65536) else Erase4K(addr / 4096))
            && 4096 * NextPage(page, end) == addr + if sector64 then 65536 else 4096
  {
    BlocksAndPages(addr, page);
  }

  lemma BlocksAndPages(addr: nat, page: nat)
    requires addr == 4096 * page
    ensures addr / 4096 == page && addr / 65536 == page / 16 && (addr % 65536 == 0 <==> page % 16 == 0)
  {
  }

  // What erase_spi_region issues for n bytes from the start of the given page
  function EraseTrace(page: nat, n: nat): seq<Op> { GreedyErase(page, 4096 * page + n) }

  lemma EraseTraceIsExact(m: Mem, page: nat, n: nat)
    ensures Run(m, EraseTrace(page, n)) == ErasePages(m, page, page + PagesUpTo(n))
  {
    GreedyEraseIsExact(m, page, 4096 * page + n);
  }

  method EraseSpiRegion(f: SpiFlash, start: nat, nbytes: nat, ghost page: nat)
    requires f.Valid() && start == 4096 * page && start + nbytes <= 4 * f.mem.Length
    modifies f, f.mem
    ensures f.Valid() && f.log == old(f.log) + EraseTrace(page, nbytes)
    ensures f.mem[..] == ErasePages(old(f.mem[..]), page, page + PagesUpTo(nbytes))
  {
    ghost var all, at := EraseTrace(page, nbytes), page;
    var addr, end := start, start + nbytes;
    while addr < end
      invariant addr == 4096 * at && f.Valid()
      invariant f.log + GreedyErase(at, end) == old(f.log) + all
      decreases end - addr
    {
      MoveHead(f.log, GreedyErase(at, end));
      addr := EraseNextSector(f, addr, end, at);
      at := NextPage(at, end);
    }
    Replayed(f, old(f.mem[..]), old(f.log), all);
    EraseTraceIsExact(old(f.mem[..]), page, nbytes);
  }

  // A 64KB command is issued for each aligned block inside the range, a 4KB command for each
  // other page the range touches, and nothing else
  predicate BlockInside(b: nat, page: nat, end: nat) {
    page <= 16 * b && 65536 * (b + 1) <= end
  }

  predicate IsGreedyCommand(op: Op, page: nat, end: nat) {
    match op
    case Erase64K(b) => BlockInside(b, page, end)
    case Erase4K(p) => page <= p < PagesUpTo(end) && !BlockInside(p / 16, page, end)
    case Program(_, _) => false
  }

  lemma {:induction false} GreedyEraseCommands(page: nat, end: nat)
    ensures forall op :: op in GreedyErase(page, end) <==> IsGreedyCommand(op, page, end)
    ensures forall i, j | 0 <= i < j < |GreedyErase(page, end)| ::
              GreedyErase(page, end)[i] != GreedyErase(page, end)[j]
    decreases end - 4096 * page
  {
    if 4096 * page < end {
      var ops := GreedyErase(page, end);
      var next := NextPage(page, end);
      GreedyEraseCommands(next, end);
      var rest := GreedyErase(next, end);
      assert ops == [ops[0]] + rest;
      assert !IsGreedyCommand(ops[0], next, end);
      forall op ensures op in ops <==> IsGreedyCommand(op, page, end) {
        GreedyCommandStep(op, page, end);
      }
    }
  }

  lemma GreedyCommandStep(op: Op, page: nat, end: nat)
    requires 4096 * page < end
    ensures IsGreedyCommand(op, page, end) <==>
              if BigStep(page, end) then op == Erase64K(page / 16) || IsGreedyCommand(op, page + 16, end)
              else op == Erase4K(page) || IsGreedyCommand(op, page + 1, end)
  {
  }

  // The list consists of erase commands and erases exactly the pages lo..hi-1 of any flash
  ghost predicate ErasesRange(ops: seq<Op>, lo: nat, hi: nat) {
    && (forall op | op in ops :: !op.Program?)
    && (forall p: nat :: lo <= p < hi <==> ErasesPage(ops, p))
  }

  ghost predicate ErasesPage(ops: seq<Op>, p: nat) {
    exists op | op in ops :: op.Erases(p * 1024)
  }

  // No list of erase commands with the same effect is shorter
  ghost predicate Shortest(ops: seq<Op>, lo: nat, hi: nat) {
    forall other: seq<Op> | ErasesRange(other, lo, hi) :: |ops| <= |other|
  }

  lemma GreedyErasesRange(page: nat, end: nat)
    ensures ErasesRange(GreedyErase(page, end), page, PagesUpTo(end))
  {
    GreedyEraseCommands(page, end);
    var ops := GreedyErase(page, end);
    forall p: nat ensures page <= p < PagesUpTo(end) <==> ErasesPage(ops, p) {
      if page <= p < PagesUpTo(end) {
        var op := if BlockInside(p / 16, page, end) then Erase64K(p / 16) else Erase4K(p);
        assert IsGreedyCommand(op, page, end);
        assert op.Erases(p * 1024);
      }
    }
  }

  // The greedy command whose sector holds what op erases
  function Owner(op: Op, page: nat, end: nat): Op {
    if op.Erase4K? && BlockInside(op.page / 16, page, end) then Erase64K(op.page / 16) else op
  }

  // A 64KB command in a list that erases a page-aligned range lies inside that range
  lemma BlockOfExactListIsInside(other: seq<Op>, b: nat, lo: nat, hi: nat)
    requires ErasesRange(other, lo, hi) && Erase64K(b) in other
    ensures BlockInside(b, lo, 4096 * hi)
  {
    var op := Erase64K(b);
    assert op.Erases((16 * b) * 1024) && op.Erases((16 * b + 15) * 1024);
    assert ErasesPage(other, 16 * b) && ErasesPage(other, 16 * b + 15);
  }

  lemma OwnerIsGreedy(g: Op, other: seq<Op>, lo: nat, hi: nat) returns (k: nat)
    requires IsGreedyCommand(g, lo, 4096 * hi) && ErasesRange(other, lo, hi)
    ensures k < |other| && Owner(other[k], lo, 4096 * hi) == g
  {
    var page := if g.Erase64K? then 16 * g.block else g.page;
    assert ErasesPage(other, page);
    var op :| op in other && op.Erases(page * 1024);
    k :| 0 <= k < |other| && other[k] == op;
    if op.Erase64K? {
      BlockOfExactListIsInside(other, op.block, lo, hi);
    }
  }

  lemma GreedyIsShortest(lo: nat, hi: nat)
    ensures Shortest(GreedyErase(lo, 4096 * hi), lo, hi)
  {
    var ops := GreedyErase(lo, 4096 * hi);
    GreedyEraseCommands(lo, 4096 * hi);
    forall other: seq<Op> | ErasesRange(other, lo, hi)
      ensures |ops| <= |other|
    {
      var owners := seq(|other|, (i: nat) requires i < |other| => Owner(other[i], lo, 4096 * hi));
      forall g | g in ops ensures g in owners {
        var k := OwnerIsGreedy(g, other, lo, hi);
        assert owners[k] == g;
      }
      Pigeonhole(ops, owners);
    }
  }

  // The documented 4KB alignment of the end is what makes the greedy choice optimal: with an
  // unaligned end the last 64KB block can be erased page by page although one command would do
  predicate Wasteful(page: nat, end: nat) {
    && end % 4096 != 0
    && PagesUpTo(end) % 16 == 0
    && page + 16 <= PagesUpTo(end)
  }

  lemma {:induction false} GreedyIgnoresPadding(page: nat, end: nat)
    requires !Wasteful(page, end)
    ensures GreedyErase(page, end) == GreedyErase(page, 4096 * PagesUpTo(end))
    decreases end - 4096 * page
  {
    if 4096 * page < end {
      BigStepPadding(page, end);
      var next := NextPage(page, end);
      GreedyIgnoresPadding(next, end);
    }
  }

  lemma BigStepPadding(page: nat, end: nat)
    ensures BigStep(page, 4096 * PagesUpTo(end)) <==>
              BigStep(page, end) || (Wasteful(page, end) && page + 16 == PagesUpTo(end))
  {
  }

  lemma {:induction false} GreedyShortTail(page: nat, end: nat)
    requires 4096 * page <= end < 4096 * page + 65536
    ensures |GreedyErase(page, end)| == PagesUpTo(end) - page
    decreases end - 4096 * page
  {
    if 4096 * (page + 1) <= end {
      GreedyShortTail(page + 1, end);
    } else if 4096 * page < end {
      assert GreedyErase(page + 1, end) == [];
    }
  }

  lemma {:induction false} WastefulIsLonger(page: nat, end: nat)
    requires Wasteful(page, end)
    ensures |GreedyErase(page, end)| == |GreedyErase(page, 4096 * PagesUpTo(end))| + 15
    decreases end - 4096 * page
  {
    BigStepPadding(page, end);
    if page + 16 == PagesUpTo(end) {
      GreedyShortTail(page, end);
      assert GreedyErase(page + 16, 4096 * PagesUpTo(end)) == [];
    } else {
      WastefulIsLonger(NextPage(page, end), end);
    }
  }

  lemma GreedyIsShortestIff(page: nat, end: nat)
    ensures Shortest(GreedyErase(page, end), page, PagesUpTo(end)) <==> !Wasteful(page, end)
  {
    var hi := PagesUpTo(end);
    GreedyIsShortest(page, hi);
    if Wasteful(page, end) {
      WastefulIsLonger(page, end);
      assert PagesUpTo(4096 * hi) == hi;
      GreedyErasesRange(page, 4096 * hi);
    } else {
      GreedyIgnoresPadding(page, end);
    }
  }

  // Erasing 61,441 bytes from address 0 takes sixteen commands where one would do
  lemma GreedyIsNotAlwaysShortest()
    ensures |GreedyErase(0, 61441)| == 16 && !Shortest(GreedyErase(0, 61441), 0, 16)
  {
    GreedyShortTail(0, 61441);
    GreedyIsShortestIff(0, 61441);
  }

  // ---------------------------------------------------------------- word-by-word copies

  function CopyOps(at: nat, data: seq<Word>): (r: seq<Op>)
    ensures |r| == |data|
  {
    seq(|data|, (i: nat) requires i < |data| => Program(at + i, data[i]))
  }

  // What programming the data into the words from at on leaves behind
  function Programmed(m: Mem, at: nat, data: seq<Word>): (r: Mem)
    ensures |r| == |m|
  {
    seq(|m|, (i: nat) requires i < |m| => if at <= i < at + |data| then Nor(m[i], data[i - at]) else m[i])
  }

  lemma ProgrammedStep(m: Mem, at: nat, data: seq<Word>)
    requires data != [] && at + |data| <= |m|
    ensures Programmed(m[at := Nor(m[at], data[0])], at + 1, data[1..]) == Programmed(m, at, data)
  {
  }

  lemma {:induction false} CopyOpsProgram(m: Mem, at: nat, data: seq<Word>)
    requires at + |data| <= |m|
    ensures Run(m, CopyOps(at, data)) == Programmed(m, at, data)
    decreases |data|
  {
    if data != [] {
      var ops := CopyOps(at, data);
      var next := Apply(m, ops[0]);
      CopyOpsProgram(next, at + 1, data[1..]);
      assert Run(m, ops) == Run(next, CopyOps(at + 1, data[1..])) by {
        assert ops[1..] == CopyOps(at + 1, data[1..]);
      }
      assert Programmed(next, at + 1, data[1..]) == Programmed(m, at, data) by {
        ProgrammedStep(m, at, data);
      }
    }
  }

  // Without overlap, the source words are the same throughout the copy
  lemma ProgrammedApart(m: Mem, at: nat, data: seq<Word>, from: nat, n: nat)
    requires from + n <= |m| && (at + |data| <= from || from + n <= at)
    ensures Programmed(m, at, data)[from..from + n] == m[from..from + n]
  {
  }

  // alt_u32_memcpy(dest_ptr, src_ptr, 4 * n) inside one flash
  method CopyWords(f: SpiFlash, at: nat, from: nat, n: nat, ghost data: seq<Word>)
    requires f.Valid() && at + n <= f.mem.Length && from + n <= f.mem.Length && (at + n <= from || from + n <= at)
    requires data == f.mem[from..from + n]
    modifies f, f.mem
    ensures f.Valid() && f.log == old(f.log) + CopyOps(at, data)
    ensures f.mem[..] == Programmed(old(f.mem[..]), at, data)
  {
    hide *;
    ghost var all, m0 := CopyOps(at, data), f.mem[..];
    Holds(f);
    var i := 0;
    while i < n
      invariant i <= n && f.Valid()
      invariant f.log + all[i..] == old(f.log) + all
      invariant f.mem[from..from + n] == data
    {
      var word := f.mem[from + i];
      assert word == f.mem[from..from + n][i] == data[i];
      CopyOpsAt(at, data, i);
      MoveHeadAt(f.log, all, i);
      f.ProgramWord(at + i, word);
      i := i + 1;
    }
    assert f.log == old(f.log) + all;
    Replayed(f, m0, old(f.log), all);
    CopyOpsProgram(m0, at, data);
  }

  lemma CopyOpsAt(at: nat, data: seq<Word>, i: nat)
    requires i < |data|
    ensures CopyOps(at, data)[i] == Program(at + i, data[i])
  {
  }

  // ---------------------------------------------------------------- copy_between_flashes

  // What a flash holds after n bytes were copied to a page of it from elsewhere
  function CopiedBetween(m: Mem, page: nat, n: nat, data: seq<Word>): (r: Mem)
    ensures |r| == |m|
  {
    Programmed(ErasePages(m, page, page + PagesUpTo(n)), 1024 * page, data)
  }

  // The words read one by one from the other flash
  method CopyBetweenFlashes(dest: SpiFlash, src: SpiFlash, to: nat, from: nat, nbytes: nat, ghost page: nat)
    requires dest.Valid() && dest.mem != src.mem && to == 4096 * page
    requires to + nbytes <= 4 * dest.mem.Length && from + nbytes / 4 <= src.mem.Length
    modifies dest, dest.mem
    ensures dest.Valid()
    ensures dest.mem[..] == CopiedBetween(old(dest.mem[..]), page, nbytes, src.mem[from..from + nbytes / 4])
  {
    hide *;
    CopiedBetweenIs(dest.mem[..], page, nbytes, src.mem[from..from + nbytes / 4]);
    EraseSpiRegion(dest, to, nbytes, page);
    CopyAcross(dest, src, to / 4, from, nbytes / 4);
  }

  method CopyAcross(dest: SpiFlash, src: SpiFlash, at: nat, from: nat, n: nat)
    requires dest.Valid() && dest.mem != src.mem && at + n <= dest.mem.Length && from + n <= src.mem.Length
    modifies dest, dest.mem
    ensures dest.Valid() && dest.mem[..] == Programmed(old(dest.mem[..]), at, src.mem[from..from + n])
  {
    hide *;
    ghost var m, data := dest.mem[..], src.mem[from..from + n];
    NothingProgrammed(m, at, data);
    for i := 0 to n
      invariant dest.Valid() && dest.mem[..] == Programmed(m, at, data[..i])
    {
      var word := src.mem[from + i];
      assert word == data[i];
      ProgrammedSnoc(m, at, data, i);
      dest.ProgramWord(at + i, word);
    }
    assert data[..n] == data;
  }

  lemma CopiedBetweenIs(m: Mem, page: nat, n: nat, data: seq<Word>)
    ensures CopiedBetween(m, page, n, data) == Programmed(ErasePages(m, page, page + PagesUpTo(n)), 1024 * page, data)
  {
  }

  lemma NothingProgrammed(m: Mem, at: nat, data: seq<Word>)
    ensures Programmed(m, at, data[..0]) == m
  {
  }

  lemma ProgrammedSnoc(m: Mem, at: nat, data: seq<Word>, i: nat)
    requires i < |data| && at + |data| <= |m|
    ensures var r := Programmed(m, at, data[..i]);
            at + i < |r| && r[at + i] == m[at + i] && Programmed(m, at, data[..i + 1]) == r[at + i := Nor(r[at + i], data[i])]
  {
    hide Nor;
  }

  // ---------------------------------------------------------------- memcpy_signed_payload

  // get_signed_payload_size: the signature block plus the length word it holds
  function SignedPayloadSize(m: Mem, src: nat): nat
    requires src + 1 < |m|
  {
    1024 + m[src + 1] as nat
  }

  // Word offset of quarter i when a quarter has q bytes
  function QuarterOffset(q: nat, i: nat): nat {
    if i == 0 then 0 else if i == 1 then q / 4 else if i == 2 then q / 2 else if i == 3 then 3 * q / 4 else q
  }

  lemma QuarterOffsets(q: nat, i: nat)
    requires i < 4
    ensures QuarterOffset(q, i) == i * q / 4
    ensures QuarterOffset(q, i) + q / 4 <= QuarterOffset(q, i + 1) <= q
  {
    if i == 0 || i == 1 || i == 2 {
    } else {
      assert i == 3;
    }
  }

  // The writes of quarters i..3 of a payload of q words, to the words from at on
  function QuarterOps(at: nat, data: seq<Word>, i: nat): seq<Op>
    requires i <= 4
    decreases 4 - i
  {
    if i == 4 then []
    else
      CopyOps(at + QuarterOffset(|data|, i), Quarter(data, i)) + QuarterOps(at, data, i + 1)
  }

  function Quarter(data: seq<Word>, i: nat): seq<Word>
    requires i < 4
  {
    QuarterOffsets(|data|, i);
    var off := QuarterOffset(|data|, i);
    data[off..off + |data| / 4]
  }

  // Everything memcpy_signed_payload does to a flash when the n bytes of payload are the words
  // data and the destination is the start of the given page
  function MemcpyTrace(page: nat, n: nat, data: seq<Word>): seq<Op> {
    EraseTrace(page, n) + QuarterOps(1024 * page, data, 0)
  }

  // Both areas lie in the flash, and erasing the destination pages spares the source
  predicate MemcpyFits(words: nat, page: nat, src: nat, n: nat) {
    && 4096 * page + n <= 4 * words
    && src + n / 4 <= words
    && (src + n / 4 <= 1024 * page || 1024 * (page + PagesUpTo(n)) <= src)
  }

  method GetSignedPayloadSize(f: SpiFlash, src: nat) returns (n: nat)
    requires src + 1 < f.mem.Length
    ensures n == SignedPayloadSize(f.mem[..], src)
  {
    n := 1024 + f.mem[src + 1] as nat;
  }

  method MemcpySignedPayload(f: SpiFlash, dest: nat, src: nat, ghost page: nat)
    requires f.Valid() && dest == 4096 * page && src + 1 < f.mem.Length
    requires MemcpyFits(f.mem.Length, page, src, SignedPayloadSize(f.mem[..], src))
    modifies f, f.mem
    ensures f.Valid()
    ensures var n := SignedPayloadSize(old(f.mem[..]), src);
            && f.log == old(f.log) + MemcpyTrace(page, n, old(f.mem[..])[src..src + n / 4])
            && f.mem[..] == Run(old(f.mem[..]), MemcpyTrace(page, n, old(f.mem[..])[src..src + n / 4]))
  {
    hide *;
    Holds(f);
    ghost var m, log := f.mem[..], f.log;
    var nbytes := GetSignedPayloadSize(f, src);
    MemcpyFitsInWords(f.mem.Length, page, src, nbytes);
    EraseThenCopy(f, dest, src, nbytes, nbytes / 4, page, page + PagesUpTo(nbytes));
    Replayed(f, m, log, MemcpyTrace(page, nbytes, m[src..src + nbytes / 4]));
  }

  lemma MemcpyFitsInWords(words: nat, page: nat, src: nat, n: nat)
    requires MemcpyFits(words, page, src, n)
    ensures var q, hi := n / 4, page + PagesUpTo(n);
            && 4096 * page + n <= 4 * words && src + q <= words && 1024 * page + q <= words
            && q <= 1024 * (hi - page) && (src + q <= 1024 * page || 1024 * hi <= src)
  {
  }

  method EraseThenCopy(f: SpiFlash, dest: nat, src: nat, nbytes: nat, q: nat, ghost page: nat, ghost hi: nat)
    requires f.Valid() && dest == 4096 * page && dest + nbytes <= 4 * f.mem.Length && src + q <= f.mem.Length
    requires hi == page + PagesUpTo(nbytes) && q <= 1024 * (hi - page)
    requires 1024 * page + q <= f.mem.Length && (src + q <= 1024 * page || 1024 * hi <= src)
    modifies f, f.mem
    ensures f.Valid() && f.log == old(f.log) + MemcpyTrace(page, nbytes, old(f.mem[..])[src..src + q])
  {
    hide EraseTrace, PagesUpTo, QuarterOps, ErasePages;
    ghost var data := f.mem[..][src..src + q];
    ErasePagesApart(f.mem[..], page, hi, src, q);
    EraseSpiRegion(f, dest, nbytes, page);
    CopyQuarters(f, dest / 4, src, q, data);
    Associative(old(f.log), EraseTrace(page, nbytes), QuarterOps(1024 * page, data, 0));
  }

  lemma ErasePagesApart(m: Mem, lo: nat, hi: nat, from: nat, n: nat)
    requires from + n <= |m| && (from + n <= 1024 * lo || 1024 * hi <= from)
    ensures ErasePages(m, lo, hi)[from..from + n] == m[from..from + n]
  {
  }

  method QuarterStart(q: nat, i: nat) returns (off: nat)
    requires i < 4
    ensures off == QuarterOffset(q, i) && off + q / 4 <= q
  {
    QuarterOffsets(q, i);
    off := i * q / 4;
  }

  lemma QuarterStep(log: seq<Op>, at: nat, data: seq<Word>, i: nat, q: nat, off: nat)
    requires i < 4 && q == |data| && off == QuarterOffset(q, i) && off + q / 4 <= q
    ensures log + QuarterOps(at, data, i)
         == (log + CopyOps(at + off, data[off..off + q / 4])) + QuarterOps(at, data, i + 1)
  {
    hide CopyOps, QuarterOffset;
    Associative(log, CopyOps(at + off, Quarter(data, i)), QuarterOps(at, data, i + 1));
  }

  // The copy loop: i * q is the byte offset of quarter i
  method CopyQuarters(f: SpiFlash, at: nat, src: nat, q: nat, ghost data: seq<Word>)
    requires f.Valid() && src + q <= f.mem.Length && at + q <= f.mem.Length && (at + q <= src || src + q <= at)
    requires f.mem[src..src + q] == data
    modifies f, f.mem
    ensures f.Valid() && f.log == old(f.log) + QuarterOps(at, data, 0)
  {
    hide *;
    var i := 0;
    while i < 4
      invariant i <= 4 && f.Valid() && f.mem[src..src + q] == data
      invariant f.log + QuarterOps(at, data, i) == old(f.log) + QuarterOps(at, data, 0)
    {
      var off := QuarterStart(q, i);
      QuarterStep(f.log, at, data, i, q, off);
      CopyPart(f, at, src, q, off, q / 4, data);
      i := i + 1;
    }
    QuartersEnd(f.log, at, data);
  }

  lemma QuartersEnd(log: seq<Op>, at: nat, data: seq<Word>)
    ensures log + QuarterOps(at, data, 4) == log
  {
  }

  // Copies k of the q words at src, from offset off on
  method CopyPart(f: SpiFlash, at: nat, src: nat, q: nat, off: nat, k: nat, ghost data: seq<Word>)
    requires f.Valid() && src + q <= f.mem.Length && at + q <= f.mem.Length && (at + q <= src || src + q <= at)
    requires f.mem[src..src + q] == data && off + k <= q
    modifies f, f.mem
    ensures f.Valid() && f.mem[src..src + q] == data
    ensures f.log == old(f.log) + CopyOps(at + off, data[off..off + k])
  {
    hide *;
    ghost var m0 := f.mem[..];
    SliceOfSlice(m0, src, q, off, k);
    CopyWords(f, at + off, src + off, k, data[off..off + k]);
    ProgrammedApart(m0, at + off, data[off..off + k], src, q);
  }

  // ---------------------------------------------------------------- the copy is exact

  lemma CopyOpsSplit(at: nat, data: seq<Word>, k: nat)
    requires k <= |data|
    ensures CopyOps(at, data) == CopyOps(at, data[..k]) + CopyOps(at + k, data[k..])
  {
  }

  // Four quarters of a multiple of four words leave nothing out
  lemma QuarterSplits(data: seq<Word>, i: nat)
    requires i < 4 && |data| % 4 == 0
    ensures var off, next := QuarterOffset(|data|, i), QuarterOffset(|data|, i + 1);
            && off <= next <= |data| && data[off..][..next - off] == Quarter(data, i)
            && data[off..][next - off..] == data[next..]
  {
    QuarterOffsets(|data|, i);
    var off, next := QuarterOffset(|data|, i), QuarterOffset(|data|, i + 1);
    assert next == off + |data| / 4;
    assert data[off..][..next - off] == data[off..next];
  }

  lemma {:induction false} QuartersTile(at: nat, data: seq<Word>, i: nat)
    requires i <= 4 && |data| % 4 == 0
    ensures QuarterOffset(|data|, i) <= |data|
    ensures QuarterOps(at, data, i) == CopyOps(at + QuarterOffset(|data|, i), data[QuarterOffset(|data|, i)..])
    decreases 4 - i
  {
    hide CopyOps, Quarter;
    if i < 4 {
      QuarterSplits(data, i);
      var off, next := QuarterOffset(|data|, i), QuarterOffset(|data|, i + 1);
      hide QuarterOffset;
      QuartersTile(at, data, i + 1);
      CopyOpsSplit(at + off, data[off..], next - off);
    } else {
      assert CopyOps(at + |data|, []) == [];
    }
  }

  // The flash after pages lo..hi-1 are erased and the data are written from word at on
  function Rewritten(m: Mem, lo: nat, hi: nat, at: nat, data: seq<Word>): (r: Mem)
    ensures |r| == |m|
  {
    seq(|m|, (i: nat) requires i < |m| =>
      if at <= i < at + |data| then data[i - at] else if lo <= i / 1024 < hi then ERASED else m[i])
  }

  // The flash after memcpy_signed_payload has copied the payload to the given page
  function PayloadCopied(m: Mem, page: nat, n: nat, data: seq<Word>): (r: Mem) {
    Rewritten(m, page, page + PagesUpTo(n), 1024 * page, data)
  }

  // Signed payloads are 1024 + 128k bytes long, so n is a multiple of 16
  lemma MemcpyIsExact(m: Mem, page: nat, n: nat, data: seq<Word>)
    requires n % 16 == 0 && n == 4 * |data| && 4096 * page + n <= 4 * |m|
    ensures Run(m, MemcpyTrace(page, n, data)) == PayloadCopied(m, page, n, data)
  {
    hide Run, EraseTrace, QuarterOps, CopyOps, ErasePages, Rewritten, Programmed;
    var at, hi := 1024 * page, page + PagesUpTo(n);
    assert QuarterOps(at, data, 0) == CopyOps(at, data) by {
      QuartersTile(at, data, 0);
      assert data[0..] == data;
    }
    RunConcat(m, EraseTrace(page, n), CopyOps(at, data));
    EraseTraceIsExact(m, page, n);
    CopyOpsProgram(ErasePages(m, page, hi), at, data);
    ProgrammedErased(m, page, hi, at, data);
  }

  lemma ProgrammedErased(m: Mem, lo: nat, hi: nat, at: nat, data: seq<Word>)
    requires 1024 * lo <= at && at + |data| <= 1024 * hi && at + |data| <= |m|
    ensures Programmed(ErasePages(m, lo, hi), at, data) == Rewritten(m, lo, hi, at, data)
  {
    var erased := ErasePages(m, lo, hi);
    forall i: nat | i < |m|
      ensures Programmed(erased, at, data)[i] == Rewritten(m, lo, hi, at, data)[i]
    {
      if at <= i < at + |data| {
        assert lo <= i / 1024 < hi;
        ErasedTakesAnyWord(data[i - at]);
      }
    }
  }

  lemma RewrittenApart(m: Mem, lo: nat, hi: nat, at: nat, data: seq<Word>, from: nat, n: nat)
    requires 1024 * lo <= at && at + |data| <= 1024 * hi && from + n <= |m|
    requires from + n <= 1024 * lo || 1024 * hi <= from
    ensures Rewritten(m, lo, hi, at, data)[from..from + n] == m[from..from + n]
  {
  }

  lemma RewrittenHolds(m: Mem, lo: nat, hi: nat, at: nat, data: seq<Word>)
    requires at + |data| <= |m|
    ensures Rewritten(m, lo, hi, at, data)[at..at + |data|] == data
  {
  }

  // Nothing outside pages lo..hi-1 differs
  ghost predicate SameOutside(r: Mem, m: Mem, lo: nat, hi: nat) {
    |r| == |m| && forall i: nat | i < |m| && !(lo <= i / 1024 < hi) :: r[i] == m[i]
  }

  lemma RewrittenOutside(m: Mem, lo: nat, hi: nat, at: nat, data: seq<Word>)
    requires 1024 * lo <= at && at + |data| <= 1024 * hi
    ensures SameOutside(Rewritten(m, lo, hi, at, data), m, lo, hi)
  {
  }

  lemma CopyExact(m: Mem, page: nat, hi: nat, n: nat, data: seq<Word>)
    requires n % 16 == 0 && n == 4 * |data| && 1024 * page + |data| <= |m| && hi == page + PagesUpTo(n)
    ensures Run(m, MemcpyTrace(page, n, data)) == Rewritten(m, page, hi, 1024 * page, data)
  {
    MemcpyIsExact(m, page, n, data);
    hide Run, MemcpyTrace, Rewritten, PagesUpTo;
  }

  // The words data lie at the given word offset
  predicate WordsAt(m: Mem, at: nat, data: seq<Word>) {
    at + |data| <= |m| && m[at..at + |data|] == data
  }

  // The n bytes of data at src can be copied to pages page..hi-1
  predicate CanCopy(m: Mem, page: nat, hi: nat, src: nat, n: nat, data: seq<Word>) {
    && n % 16 == 0 && n == 4 * |data| && hi == page + PagesUpTo(n) && |data| <= 1024 * (hi - page)
    && 1024 * page + |data| <= |m| && WordsAt(m, src, data) && (src + |data| <= 1024 * page || 1024 * hi <= src)
  }

  // memcpy_signed_payload of the words data: they are at the destination, the source is as before
  // and nothing outside the destination's 4KB pages changes
  lemma CopyIsExact(m: Mem, page: nat, hi: nat, src: nat, n: nat, data: seq<Word>)
    requires CanCopy(m, page, hi, src, n, data)
    ensures var r := Run(m, MemcpyTrace(page, n, data));
            WordsAt(r, 1024 * page, data) && WordsAt(r, src, data) && SameOutside(r, m, page, hi)
  {
    hide Run, MemcpyTrace, Rewritten, SameOutside, PagesUpTo;
    CopyExact(m, page, hi, n, data);
    RewrittenHolds(m, page, hi, 1024 * page, data);
    RewrittenApart(m, page, hi, 1024 * page, data, src, |data|);
    RewrittenOutside(m, page, hi, 1024 * page, data);
  }

  lemma ErasedTakesAnyWord(w: Word)
    ensures Nor(ERASED, w) == w
  {
  }

  // The shift by two of memcpy_signed_payload loses the words beyond a multiple of four
  ghost predicate IsErased(m: Mem) { forall i | 0 <= i < |m| :: m[i] == ERASED }

  ghost predicate CopiesEveryPayload(words: nat) {
    forall m: Mem, data: seq<Word> | |data| == words == |m| && IsErased(m) ::
      Run(m, QuarterOps(0, data, 0)) == data
  }

  lemma QuartersCopyAll(m: Mem, data: seq<Word>)
    requires |data| == |m| && |data| % 4 == 0 && IsErased(m)
    ensures Run(m, QuarterOps(0, data, 0)) == data
  {
    hide Run, QuarterOps, CopyOps;
    QuartersTile(0, data, 0);
    assert data[0..] == data;
    CopyOpsProgram(m, 0, data);
    forall i: nat | i < |data| ensures Programmed(m, 0, data)[i] == data[i] {
      ErasedTakesAnyWord(data[i]);
    }
  }

  lemma QuartersAreExactIff(words: nat)
    ensures CopiesEveryPayload(words) <==> words % 4 == 0
  {
    hide Run, QuarterOps;
    if words % 4 == 0 {
      forall m: Mem, data: seq<Word> | |data| == words == |m| && IsErased(m)
        ensures Run(m, QuarterOps(0, data, 0)) == data
      {
        QuartersCopyAll(m, data);
      }
    } else {
      var m: Mem := seq(words, i => ERASED);
      var zeros: seq<Word> := seq(words, i => 0);
      QuartersMissLast(zeros, 0);
      RunFrame(m, QuarterOps(0, zeros, 0), words - 1);
      assert Run(m, QuarterOps(0, zeros, 0))[words - 1] != zeros[words - 1];
    }
  }

  // Five words lose the last one
  lemma QuartersCanMissTheEnd()
    ensures !CopiesEveryPayload(5)
  {
    QuartersAreExactIff(5);
  }

  lemma {:induction false} QuartersMissLast(data: seq<Word>, i: nat)
    requires i <= 4 && |data| % 4 != 0
    ensures forall op | op in QuarterOps(0, data, i) :: !Touches(op, |data| - 1)
    decreases 4 - i
  {
    if i < 4 {
      QuartersMissLast(data, i + 1);
      QuarterOffsets(|data|, i);
      assert QuarterOffset(|data|, i) + |data| / 4 < |data|;
    }
  }
}
