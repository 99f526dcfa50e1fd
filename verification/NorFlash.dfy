/**
 NOR flash as the root of trust drives it: an erase command sets every bit of one 4KB or 64KB
 sector, a word write can only clear bits. A flash keeps a ghost log of the commands it was
 given, so that losing power between two commands is a prefix of that log.
 */
module NorFlash {
  type Word = bv32
  type Mem = seq<Word>

  const ERASED: Word := 0xFFFF_FFFF

  // What a cell holds after a word is programmed over it
  function Nor(cell: Word, data: Word): Word { cell & data }

  // A 4KB page holds 1024 words and a 64KB block sixteen pages
  datatype Op = Erase4K(page: nat) | Erase64K(block: nat) | Program(at: nat, data: Word) {
    predicate Erases(i: nat) {
      match this
      case Erase4K(p) => i / 1024 == p
      case Erase64K(b) => i / 1024 / 16 == b
      case Program(_, _) => false
    }
  }

  function Apply(m: Mem, op: Op): (r: Mem)
    ensures |r| == |m|
  {
    match op
    case Program(at, data) => if at < |m| then m[at := Nor(m[at], data)] else m
    case _ => seq(|m|, (i: nat) requires i < |m| => if op.Erases(i) then ERASED else m[i])
  }

  function Run(m: Mem, ops: seq<Op>): (r: Mem)
    ensures |r| == |m|
    decreases |ops|
  {
    if ops == [] then m else Run(Apply(m, ops[0]), ops[1..])
  }

  lemma {:induction false} RunConcat(m: Mem, a: seq<Op>, b: seq<Op>)
    ensures Run(m, a + b) == Run(Run(m, a), b)
    decreases |a|
  {
    if a == [] {
      assert a + b == b;
    } else {
      assert (a + b)[1..] == a[1..] + b;
      RunConcat(Apply(m, a[0]), a[1..], b);
    }
  }

  lemma RunSnoc(m: Mem, a: seq<Op>, op: Op)
    ensures Run(m, a + [op]) == Apply(Run(m, a), op)
  {
    RunConcat(m, a, [op]);
    assert Run(Run(m, a), [op]) == Run(Apply(Run(m, a), op), []);
  }

  lemma ProgramTwo(m: Mem, a: nat, x: Word, b: nat, y: Word)
    requires a < |m| && b < |m| && a != b
    ensures Run(m, [Program(a, x)]) == m[a := Nor(m[a], x)]
    ensures Run(m, [Program(a, x), Program(b, y)]) == m[a := Nor(m[a], x)][b := Nor(m[b], y)]
  {
    hide Nor;
    RunSnoc(m, [], Program(a, x));
    RunSnoc(m, [Program(a, x)], Program(b, y));
    assert [] + [Program(a, x)] == [Program(a, x)];
    assert [Program(a, x)] + [Program(b, y)] == [Program(a, x), Program(b, y)];
  }

  // An operation leaves alone every word it neither erases nor programs
  predicate Touches(op: Op, i: nat) {
    op.Erases(i) || (op.Program? && op.at == i)
  }

  lemma {:induction false} RunFrame(m: Mem, ops: seq<Op>, i: nat)
    requires i < |m|
    requires forall op | op in ops :: !Touches(op, i)
    ensures Run(m, ops)[i] == m[i]
    decreases |ops|
  {
    if ops != [] {
      assert ops[0] in ops;
      RunFrame(Apply(m, ops[0]), ops[1..], i);
    }
  }

  class SpiFlash {
    const mem: array<Word>
    ghost const origin: Mem
    ghost var log: seq<Op>

    // The contents are the original image with the logged commands applied to it
    ghost predicate Valid()
      reads this, mem
    {
      && mem.Length % 16384 == 0
      && |origin| == mem.Length
      && mem[..] == Run(origin, log)
    }

    constructor (blocks: nat)
      ensures Valid() && fresh(mem) && mem.Length == 16384 * blocks && log == []
    {
      var cells := new Word[16384 * blocks];
      mem, origin, log := cells, cells[..], [];
    }

    // execute_spi_erase_cmd: the device erases the sector holding the byte address it is given
    method ExecuteSpiEraseCmd(addr: nat, sector64: bool)
      requires Valid() && addr < 4 * mem.Length
      modifies this, mem
      ensures Valid()
      ensures log == old(log) + [if sector64 then Erase64K(addr / 65536) else Erase4K(addr / 4096)]
    {
      ghost var op := if sector64 then Erase64K(addr / 65536) else Erase4K(addr / 4096);
      ghost var before := mem[..];
      if sector64 {
        EraseSector(addr / 65536 * 16384, 16384, op);
      } else {
        EraseSector(addr / 4096 * 1024, 1024, op);
      }
      RunSnoc(origin, log, op);
      log := log + [op];
    }

    method EraseSector(first: nat, words: nat, ghost op: Op)
      requires first + words <= mem.Length
      requires forall i: nat :: op.Erases(i) <==> first <= i < first + words
      requires !op.Program?
      modifies mem
      ensures mem[..] == Apply(old(mem[..]), op)
    {
      forall i | first <= i < first + words {
        mem[i] := ERASED;
      }
    }

    // A write through the memory-mapped window
    method ProgramWord(at: nat, data: Word)
      requires Valid() && at < mem.Length
      modifies this, mem
      ensures Valid() && log == old(log) + [Program(at, data)]
      ensures mem[..] == old(mem[..])[at := Nor(old(mem[at]), data)]
    {
      mem[at] := Nor(mem[at], data);
      assert mem[..] == Apply(old(mem[..]), Program(at, data));
      RunSnoc(origin, log, Program(at, data));
      log := log + [Program(at, data)];
    }
  }

  lemma Holds(f: SpiFlash)
    requires f.Valid()
    ensures f.mem[..] == Run(f.origin, f.log)
  {
  }

  // A flash holds what it held before with the commands logged since applied to it
  lemma Replayed(f: SpiFlash, before: Mem, log: seq<Op>, ops: seq<Op>)
    requires f.Valid() && f.log == log + ops && before == Run(f.origin, log)
    ensures f.mem[..] == Run(before, ops)
  {
    RunConcat(f.origin, log, ops);
  }
}
