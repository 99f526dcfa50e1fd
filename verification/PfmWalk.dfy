/**
 The pointer that walks the definitions of a manifest in a flash (fw/code/inc/pfm_utils.h): where
 it stands, what it reads there and how it moves on.
 */
module PfmWalk {
  import opened NorFlash
  import opened Sequences
  import opened SpiRwUtils
  import opened Pfm

  function Start(e: Entry): nat
    requires e.SpiRegion?
  {
    e.startAddr as nat
  }

  function End(e: Entry): nat
    requires e.SpiRegion?
  {
    e.endAddr as nat
  }

  predicate AtDefinition(body: seq<Word>, ptr: nat) {
    && ptr < |body| && (IsRule(body[ptr]) || IsRegion(body[ptr]))
    && Terminated(body[ptr..])
  }

  // The definition at word ptr
  function DefinitionAt(body: seq<Word>, ptr: nat): Entry
    requires AtDefinition(body, ptr)
  {
    WalkStep(body, ptr);
    ParseEntry(body[ptr..ptr + DefWords(body[ptr])])
  }

  lemma ParseHere(body: seq<Word>, ptr: nat)
    requires AtDefinition(body, ptr)
    ensures var next := ptr + DefWords(body[ptr]);
            && next < |body| && Terminated(body[next..])
            && Parse(body[ptr..]) == [DefinitionAt(body, ptr)] + Parse(body[next..])
  {
    WalkStep(body, ptr);
  }

  lemma DefinitionsAdvance(w: Word)
    ensures DefWords(w) > 0
  {
  }

  method ReadWord(f: SpiFlash, at: nat, off: nat, ghost data: seq<Word>) returns (w: Word)
    requires WordsAt(f.mem[..], at, data) && off < |data|
    ensures at + off < f.mem.Length && w == data[off]
  {
    assert f.mem[..][at..at + |data|][off] == f.mem[at + off];
    w := f.mem[at + off];
  }

  method ReadDefinition(f: SpiFlash, bodyAt: nat, ptr: nat, w: Word, ghost body: seq<Word>) returns (e: Entry)
    requires WordsAt(f.mem[..], bodyAt, body) && AtDefinition(body, ptr) && w == body[ptr]
    ensures e == DefinitionAt(body, ptr)
  {
    ParseHere(body, ptr);
    WalkStep(body, ptr);
    ghost var n := DefWords(w);
    assert f.mem[bodyAt + ptr..bodyAt + ptr + DefWords(w)] == body[ptr..ptr + n] by {
      hide DefWords;
      PartOfSlice(f.mem[..], bodyAt, body, ptr, n);
    }
    hide DefWords;
    e := ParseEntry(f.mem[bodyAt + ptr..bodyAt + ptr + DefWords(w)]);
  }
}
