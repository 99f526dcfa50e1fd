/**
 memcpy_signed_payload when power is lost between two flash commands: a prefix of its commands has
 been carried out.
 */
module PowerLoss {
  import opened NorFlash
  import opened Sequences
  import opened SpiRwUtils

  // ---------------------------------------------------------------- while erasing

  lemma {:induction false} ErasedStays(m: Mem, ops: seq<Op>, i: nat)
    requires i < |m| && m[i] == ERASED && forall op | op in ops :: !op.Program?
    ensures Run(m, ops)[i] == ERASED
    decreases |ops|
  {
    if ops != [] {
      ErasedStays(Apply(m, ops[0]), ops[1..], i);
    }
  }

  lemma AllErases(page: nat, n: nat, k: nat)
    requires 0 < k <= |EraseTrace(page, n)|
    ensures forall op | op in EraseTrace(page, n)[..k][1..] :: !op.Program?
  {
    GreedyEraseCommands(page, 4096 * page + n);
    var ops := EraseTrace(page, n);
    assert forall op | op in ops :: !op.Program?;
    assert forall op | op in ops[..k][1..] :: op in ops;
  }

  lemma FirstCommand(page: nat, n: nat)
    requires n > 0
    ensures |EraseTrace(page, n)| > 0
    ensures EraseTrace(page, n)[0] == Erase64K(page / 16) || EraseTrace(page, n)[0] == Erase4K(page)
  {
  }

  lemma FirstErases(m: Mem, op: Op, page: nat)
    requires 1024 * page < |m| && (op == Erase64K(page / 16) || op == Erase4K(page))
    ensures Apply(m, op)[1024 * page] == ERASED
  {
  }

  lemma RunHead(m: Mem, ops: seq<Op>)
    requires ops != []
    ensures Run(m, ops) == Run(Apply(m, ops[0]), ops[1..])
  {
  }

  // Cut short while erasing, the first word of the destination is erased
  lemma FirstWordErased(m: Mem, page: nat, n: nat, k: nat)
    requires n > 0 && 1024 * page < |m| && 0 < k <= |EraseTrace(page, n)|
    ensures Run(m, EraseTrace(page, n)[..k])[1024 * page] == ERASED
  {
    hide *;
    var cut := EraseTrace(page, n)[..k];
    FirstCommand(page, n);
    AllErases(page, n, k);
    RunHead(m, cut);
    FirstErases(m, cut[0], page);
    ErasedStays(Apply(m, cut[0]), cut[1..], 1024 * page);
  }

  // ---------------------------------------------------------------- while copying

  lemma TraceIs(page: nat, n: nat, data: seq<Word>)
    requires |data| % 4 == 0
    ensures MemcpyTrace(page, n, data) == EraseTrace(page, n) + CopyOps(1024 * page, data)
  {
    hide EraseTrace, CopyOps, QuarterOps;
    QuartersTile(1024 * page, data, 0);
    assert data[0..] == data;
  }

  lemma CopyOpsPrefix(at: nat, data: seq<Word>, j: nat)
    requires j <= |data|
    ensures CopyOps(at, data)[..j] == CopyOps(at, data[..j])
  {
  }

  lemma CoversCopy(page: nat, hi: nat, n: nat, words: nat)
    requires n == 4 * words && hi == page + PagesUpTo(n)
    ensures 1024 * page + words <= 1024 * hi
  {
  }

  lemma ErasedThenCopied(m: Mem, page: nat, hi: nat, n: nat, at: nat, part: seq<Word>)
    requires at == 1024 * page && hi == page + PagesUpTo(n) && at + |part| <= 1024 * hi && at + |part| <= |m|
    ensures Run(m, EraseTrace(page, n) + CopyOps(at, part)) == Rewritten(m, page, hi, at, part)
  {
    hide *;
    RunConcat(m, EraseTrace(page, n), CopyOps(at, part));
    EraseTraceIsExact(m, page, n);
    CopyOpsProgram(ErasePages(m, page, hi), at, part);
    ProgrammedErased(m, page, hi, at, part);
  }

  lemma CutTrace(page: nat, n: nat, data: seq<Word>, j: nat)
    requires |data| % 4 == 0 && j <= |data|
    ensures |MemcpyTrace(page, n, data)| == |EraseTrace(page, n)| + |data|
    ensures MemcpyTrace(page, n, data)[..|EraseTrace(page, n)| + j] == EraseTrace(page, n) + CopyOps(1024 * page, data[..j])
  {
    hide *;
    TraceIs(page, n, data);
    PrefixOfSum(EraseTrace(page, n), CopyOps(1024 * page, data), j);
    CopyOpsPrefix(1024 * page, data, j);
  }

  // Cut short while copying, the first words are there and the rest of the pages is erased
  lemma CopyCut(m: Mem, page: nat, hi: nat, n: nat, data: seq<Word>, j: nat)
    requires |data| % 4 == 0 && n == 4 * |data| && 1024 * page + |data| <= |m| && j <= |data| && hi == page + PagesUpTo(n)
    ensures |MemcpyTrace(page, n, data)| == |EraseTrace(page, n)| + |data|
    ensures Run(m, MemcpyTrace(page, n, data)[..|EraseTrace(page, n)| + j]) == Rewritten(m, page, hi, 1024 * page, data[..j])
  {
    CoversCopy(page, hi, n, |data|);
    CutTrace(page, n, data, j);
    hide *;
    ErasedThenCopied(m, page, hi, n, 1024 * page, data[..j]);
  }

  // What a cut copy holds where the destination's header and inner signature start
  lemma CutContents(m: Mem, page: nat, n: nat, data: seq<Word>, j: nat, r: Mem)
    requires n == 4 * |data| && 1024 * page + |data| <= |m| && j <= |data| && |data| > 256
    requires r == Rewritten(m, page, page + PagesUpTo(n), 1024 * page, data[..j])
    requires r[1024 * page + 256] != ERASED
    ensures 1024 * page + 256 <= |r| && r[1024 * page..1024 * page + 256] == data[..256]
  {
    CoversCopy(page, page + PagesUpTo(n), n, |data|);
    var at := 1024 * page;
    PageOfOffset(page, page + PagesUpTo(n), 256);
    assert page <= (at + 256) / 1024 < page + PagesUpTo(n);
    assert j > 256;
    assert forall i: nat | i < 256 :: r[at + i] == data[..j][i] == data[i];
  }

  // ---------------------------------------------------------------- outside the destination

  lemma EraseTouches(page: nat, n: nat, op: Op, i: nat)
    requires op in EraseTrace(page, n) && Touches(op, i)
    ensures page <= i / 1024 < page + PagesUpTo(n)
  {
    GreedyEraseCommands(page, 4096 * page + n);
    assert IsGreedyCommand(op, page, 4096 * page + n);
  }

  lemma CopyTouches(at: nat, data: seq<Word>, op: Op, i: nat)
    requires op in CopyOps(at, data) && Touches(op, i)
    ensures at <= i < at + |data|
  {
  }

  lemma TraceTouches(page: nat, hi: nat, n: nat, data: seq<Word>, op: Op, i: nat)
    requires |data| % 4 == 0 && n == 4 * |data| && hi == page + PagesUpTo(n)
    requires op in MemcpyTrace(page, n, data) && Touches(op, i)
    ensures page <= i / 1024 < hi
  {
    TraceIs(page, n, data);
    CoversCopy(page, hi, n, |data|);
    hide EraseTrace, CopyOps, MemcpyTrace, PagesUpTo, Touches;
    if op in EraseTrace(page, n) {
      EraseTouches(page, n, op, i);
    } else {
      CopyTouches(1024 * page, data, op, i);
    }
  }

  // However far the copy got, nothing outside the destination's pages has changed
  lemma CutOutside(m: Mem, page: nat, hi: nat, n: nat, data: seq<Word>, k: nat)
    requires |data| % 4 == 0 && n == 4 * |data| && hi == page + PagesUpTo(n) && k <= |MemcpyTrace(page, n, data)|
    ensures SameOutside(Run(m, MemcpyTrace(page, n, data)[..k]), m, page, hi)
  {
    var cut := MemcpyTrace(page, n, data)[..k];
    assert forall op | op in cut :: op in MemcpyTrace(page, n, data);
    hide MemcpyTrace, Run, Touches, PagesUpTo;
    forall i: nat | i < |m| && !(page <= i / 1024 < hi) ensures Run(m, cut)[i] == m[i] {
      forall op | op in cut ensures !Touches(op, i) {
        if Touches(op, i) {
          TraceTouches(page, hi, n, data, op, i);
        }
      }
      RunFrame(m, cut, i);
    }
  }

  lemma OutsideTwice(a: Mem, b: Mem, c: Mem, lo: nat, hi: nat)
    requires SameOutside(a, b, lo, hi) && SameOutside(b, c, lo, hi)
    ensures SameOutside(a, c, lo, hi)
  {
  }
}
