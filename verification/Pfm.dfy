/**
 Platform firmware manifests (fw/code/inc/pfm.h): a body of SMBus rule and SPI region definitions
 of different lengths, walked by pointer until a byte that starts neither.
 */
module Pfm {
  import opened NorFlash
  import opened Sequences

  datatype Entry =
    | SmbusRule(busId: bv8, ruleId: bv8, deviceAddr: bv8, whitelist: seq<Word>)
    | SpiRegion(protection: bv8, hashAlgorithm: bv16, startAddr: Word, endAddr: Word, hash: seq<Word>)
  {
    predicate Readable() { SpiRegion? && protection & 1 != 0 }
    predicate Writable() { SpiRegion? && protection & 2 != 0 }
    // is_spi_region_static and is_spi_region_dynamic
    predicate Static() { Readable() && !Writable() }
    predicate Dynamic() { Readable() && Writable() }
  }

  // The definition type is the first byte of a definition; 2 is an SMBus rule, 1 a SPI region
  predicate IsRule(w: Word) { w & 0xFF == 2 }
  predicate IsRegion(w: Word) { w & 0xFF == 1 }

  // SMBUS_RULE_DEF_SIZE and get_end_of_spi_region_def, in words
  function DefWords(w: Word): nat {
    if IsRule(w) then 10 else if HighHalf(w) == 0 then 4 else 12
  }

  // Every definition of the body lies within it, and something else ends it
  predicate Terminated(body: seq<Word>)
    decreases |body|
  {
    && body != []
    && (IsRule(body[0]) || IsRegion(body[0]) ==>
          DefWords(body[0]) <= |body| && Terminated(body[DefWords(body[0])..]))
  }

  function ParseEntry(d: seq<Word>): Entry
    requires d != [] && (IsRule(d[0]) || IsRegion(d[0])) && |d| == DefWords(d[0])
  {
    if IsRule(d[0]) then
      SmbusRule(Byte1(d[1]), Byte2(d[1]), Byte3(d[1]), d[2..])
    else
      SpiRegion(Byte1(d[0]), HighHalf(d[0]), d[2], d[3], d[4..])
  }

  // Fields of a little-endian word
  function Byte1(w: Word): bv8 { ((w >> 8) & 0xFF) as bv8 }
  function Byte2(w: Word): bv8 { ((w >> 16) & 0xFF) as bv8 }
  function Byte3(w: Word): bv8 { (w >> 24) as bv8 }
  function HighHalf(w: Word): bv16 { (w >> 16) as bv16 }

  // The definitions a walk over the body visits, in order
  function Parse(body: seq<Word>): seq<Entry>
    requires Terminated(body)
    decreases |body|
  {
    if !IsRule(body[0]) && !IsRegion(body[0]) then []
    else
      var n := DefWords(body[0]);
      [ParseEntry(body[..n])] + Parse(body[n..])
  }

  // ---------------------------------------------------------------- encoding

  predicate Encodable(e: Entry) {
    match e
    case SmbusRule(_, _, _, whitelist) => |whitelist| == 8
    case SpiRegion(_, algorithm, _, _, hash) => |hash| == if algorithm == 0 then 0 else 8
  }

  function Encode(e: Entry): (d: seq<Word>)
    requires Encodable(e)
  {
    match e
    case SmbusRule(bus, rule, addr, whitelist) => [2, RuleWord(bus, rule, addr)] + whitelist
    case SpiRegion(protection, algorithm, start, end, hash) =>
      [RegionWord(protection, algorithm), 0, start, end] + hash
  }

  function RuleWord(bus: bv8, rule: bv8, addr: bv8): Word {
    ((bus as Word) << 8) | ((rule as Word) << 16) | ((addr as Word) << 24)
  }

  function RegionWord(protection: bv8, algorithm: bv16): Word {
    1 | ((protection as Word) << 8) | ((algorithm as Word) << 16)
  }

  function EncodeAll(es: seq<Entry>): seq<Word>
    requires forall e | e in es :: Encodable(e)
  {
    if es == [] then [] else Encode(es[0]) + EncodeAll(es[1..])
  }

  lemma RuleWordFields(bus: bv8, rule: bv8, addr: bv8)
    ensures var w := RuleWord(bus, rule, addr); Byte1(w) == bus && Byte2(w) == rule && Byte3(w) == addr
  {
  }

  lemma RegionWordFields(protection: bv8, algorithm: bv16)
    ensures var w := RegionWord(protection, algorithm);
            !IsRule(w) && IsRegion(w) && Byte1(w) == protection && HighHalf(w) == algorithm
  {
  }

  lemma EncodeThenParseEntry(e: Entry)
    requires Encodable(e)
    ensures var d := Encode(e);
            && d != [] && (IsRule(d[0]) || IsRegion(d[0])) && |d| == DefWords(d[0]) && ParseEntry(d) == e
  {
    assert IsRule(2);
    hide RuleWord, RegionWord, Byte1, Byte2, Byte3, HighHalf, IsRule, IsRegion;
    match e
    case SmbusRule(bus, rule, addr, whitelist) =>
      RuleWordFields(bus, rule, addr);
    case SpiRegion(protection, algorithm, _, _, hash) =>
      RegionWordFields(protection, algorithm);
  }

  // Whatever list of definitions is encoded, and whatever follows as long as it starts no
  // definition, the walk ends and visits exactly that list
  lemma {:induction false} EncodeThenParse(es: seq<Entry>, after: seq<Word>)
    requires forall e | e in es :: Encodable(e)
    requires after != [] && !IsRule(after[0]) && !IsRegion(after[0])
    ensures Terminated(EncodeAll(es) + after) && Parse(EncodeAll(es) + after) == es
    decreases |es|
  {
    if es == [] {
      assert EncodeAll(es) + after == after;
    } else {
      hide Encode, DefWords, ParseEntry, IsRule, IsRegion;
      var d, rest := Encode(es[0]), EncodeAll(es[1..]) + after;
      EncodeThenParseEntry(es[0]);
      EncodeThenParse(es[1..], after);
      Associative(d, EncodeAll(es[1..]), after);
      assert (d + rest)[..|d|] == d && (d + rest)[|d|..] == rest;
    }
  }

  // Only the words a walk reads matter to it
  lemma {:induction false} ParseDependsOnPrefix(body: seq<Word>, after: seq<Word>)
    requires Terminated(body)
    ensures Terminated(body + after) && Parse(body + after) == Parse(body)
    decreases |body|
  {
    if IsRule(body[0]) || IsRegion(body[0]) {
      var n := DefWords(body[0]);
      ParseDependsOnPrefix(body[n..], after);
      assert (body + after)[n..] == body[n..] + after && (body + after)[..n] == body[..n];
    }
  }

  // The words a walk reads, the one that ends it included
  function WalkLength(body: seq<Word>): (n: nat)
    requires Terminated(body)
    ensures 0 < n <= |body|
    decreases |body|
  {
    if !IsRule(body[0]) && !IsRegion(body[0]) then 1
    else DefWords(body[0]) + WalkLength(body[DefWords(body[0])..])
  }

  // A walk sees no other words
  lemma {:induction false} SameWalk(body: seq<Word>, other: seq<Word>)
    requires Terminated(body) && WalkLength(body) <= |other| && other[..WalkLength(body)] == body[..WalkLength(body)]
    ensures Terminated(other) && WalkLength(other) == WalkLength(body) && Parse(other) == Parse(body)
    decreases |body|
  {
    var k := WalkLength(body);
    assert other[0] == other[..k][0] == body[..k][0] == body[0];
    if IsRule(body[0]) || IsRegion(body[0]) {
      var n := DefWords(body[0]);
      PartOfSlice(other, 0, body[..k], 0, n);
      PartOfSlice(other, 0, body[..k], n, k - n);
      assert body[..k][..n] == body[..n] && body[..k][n..k] == body[n..][..k - n] && other[n..k] == other[n..][..k - n];
      hide DefWords, ParseEntry, IsRule, IsRegion;
      SameWalk(body[n..], other[n..]);
    }
  }

  // Where definitions end at the end of a list of words, any word that starts none ends the walk
  lemma {:induction false} EndsAnywhere(defs: seq<Word>, x: Word, after: seq<Word>)
    requires Terminated(defs + [ERASED]) && !IsRule(x) && !IsRegion(x)
    ensures Terminated(defs + [x] + after) && Parse(defs + [x] + after) == Parse(defs + [ERASED])
    decreases |defs|
  {
    var body, other := defs + [ERASED], defs + [x] + after;
    if defs == [] {
      assert body == [ERASED] && other == [x] + after && other[0] == x;
    } else {
      assert body[0] == defs[0] == other[0];
      if IsRule(defs[0]) || IsRegion(defs[0]) {
        var n := DefWords(defs[0]);
        DefinitionFits(defs, n);
        assert body[n..] == defs[n..] + [ERASED] && other[n..] == defs[n..] + [x] + after;
        assert body[..n] == defs[..n] && other[..n] == defs[..n];
        hide DefWords, ParseEntry, IsRule, IsRegion;
        EndsAnywhere(defs[n..], x, after);
      }
    }
  }

  lemma DefinitionFits(defs: seq<Word>, n: nat)
    requires defs != [] && n == DefWords(defs[0]) && n <= |defs| + 1 && Terminated((defs + [ERASED])[n..])
    ensures n <= |defs|
  {
    hide DefWords;
    assert |(defs + [ERASED])[n..]| == |defs| + 1 - n;
  }

  // ---------------------------------------------------------------- one step of a walk

  // What every walk keeps: at word ptr it has seen a prefix of the definitions
  lemma WalkStep(body: seq<Word>, ptr: nat)
    requires ptr < |body| && Terminated(body[ptr..]) && (IsRule(body[ptr]) || IsRegion(body[ptr]))
    ensures var n := DefWords(body[ptr]);
            && ptr + n <= |body| && Terminated(body[ptr + n..])
            && Parse(body[ptr..]) == [ParseEntry(body[ptr..ptr + n])] + Parse(body[ptr + n..])
  {
    var n := DefWords(body[ptr]);
    assert body[ptr..][..n] == body[ptr..ptr + n] && body[ptr..][n..] == body[ptr + n..];
  }
}
