/**
 The definitions of a manifest byte by byte (PFM_SMBUS_RULE_DEF and PFM_SPI_REGION_DEF in fw/code/inc/pfm.h),
 and what a list of them says: whether the manifest is valid for a flash, and which pages may be written.
 */
module PfmFormat {
  import opened NorFlash
  import opened Sequences
  import opened Bits
  import opened Pfm
  import opened PfmWalk
  import opened PfmValidation
  import opened Authentication
  import opened WriteEnable

  datatype Definition =
    | Rule(reserved: seq<bv8>, bus: bv8, rule: bv8, addr: bv8, whitelist: seq<Word>)
    | Region(mask: bv8, algorithm: bv8, algorithm2: bv8, unused: Word, from: Word, to: Word, hash: seq<Word>)
  {
    predicate Formed() {
      match this
      case Rule(reserved, _, _, _, whitelist) => |reserved| == 4 && |whitelist| == 8
      case Region(_, a, a2, _, _, _, hash) => |hash| == if a == 0 && a2 == 0 then 0 else 8
    }

    // The bytes of the definition as words
    function Words(): (w: seq<Word>)
      requires Formed()
      ensures w != []
    {
      match this
      case Rule(reserved, bus, rule, addr, whitelist) =>
        WordsOf([2] + reserved + [bus, rule, addr]) + whitelist
      case Region(mask, a, a2, unused, from, to, hash) => WordsOf([1, mask, a, a2]) + [unused, from, to] + hash
    }

    // What the firmware reads
    function Read(): Entry {
      match this
      case Rule(_, bus, rule, addr, whitelist) => SmbusRule(bus, rule, addr, whitelist)
      case Region(mask, a, a2, _, from, to, hash) => SpiRegion(mask, (a as bv16) | (a2 as bv16 << 8), from, to, hash)
    }
  }

  function AllWords(xs: seq<Definition>): seq<Word>
    requires forall x | x in xs :: x.Formed()
  {
    if xs == [] then [] else xs[0].Words() + AllWords(xs[1..])
  }

  function AllRead(xs: seq<Definition>): (es: seq<Entry>)
    ensures |es| == |xs| && forall k | 0 <= k < |xs| :: es[k] == xs[k].Read()
  {
    seq(|xs|, (k: nat) requires k < |xs| => xs[k].Read())
  }

  lemma FourBytes(b0: bv8, b1: bv8, b2: bv8, b3: bv8)
    ensures var w := Bits.WordOf(b0, b1, b2, b3);
            && w & 0xFF == b0 as Word && Byte1(w) == b1 && Byte2(w) == b2 && Byte3(w) == b3
            && HighHalf(w) == (b2 as bv16) | (b3 as bv16 << 8)
  {
  }

  lemma RuleIsRead(x: Definition)
    requires x.Rule? && x.Formed()
    ensures var w := x.Words(); IsRule(w[0]) && |w| == DefWords(w[0]) && ParseEntry(w) == x.Read()
  {
    var b := [2 as bv8] + x.reserved + [x.bus, x.rule, x.addr];
    FourBytes(b[0], b[1], b[2], b[3]);
    FourBytes(b[4], b[5], b[6], b[7]);
    hide Bits.WordOf, Byte1, Byte2, Byte3, HighHalf;
    var w := x.Words();
    assert w[0] == Bits.WordOf(b[0], b[1], b[2], b[3]) && w[1] == Bits.WordOf(b[4], b[5], b[6], b[7]) && w[2..] == x.whitelist;
  }

  lemma RegionIsRead(x: Definition)
    requires x.Region? && x.Formed()
    ensures var w := x.Words(); IsRegion(w[0]) && !IsRule(w[0]) && |w| == DefWords(w[0]) && ParseEntry(w) == x.Read()
  {
    hide *;
    var first := Bits.WordOf(1, x.mask, x.algorithm, x.algorithm2);
    FirstWord(x.mask, x.algorithm, x.algorithm2);
    RegionWords(x, first);
    ParseRegion(x.Words(), first, x.unused, x.from, x.to, x.hash);
  }

  lemma FirstWord(mask: bv8, a: bv8, a2: bv8)
    ensures var w := Bits.WordOf(1, mask, a, a2);
            && WordsOf([1, mask, a, a2]) == [w] && IsRegion(w) && !IsRule(w) && Byte1(w) == mask
            && HighHalf(w) == (a as bv16) | (a2 as bv16 << 8) && (HighHalf(w) == 0 <==> a == 0 && a2 == 0)
  {
    FourBytes(1, mask, a, a2);
    OneWord([1, mask, a, a2]);
    StartByte(Bits.WordOf(1, mask, a, a2));
    NoAlgorithm(a, a2);
    hide *;
  }

  lemma RegionWords(x: Definition, first: Word)
    requires x.Region? && x.Formed() && WordsOf([1, x.mask, x.algorithm, x.algorithm2]) == [first]
    ensures x.Words() == [first, x.unused, x.from, x.to] + x.hash
    ensures x.Read() == SpiRegion(x.mask, (x.algorithm as bv16) | (x.algorithm2 as bv16 << 8), x.from, x.to, x.hash)
    ensures |x.hash| == if x.algorithm == 0 && x.algorithm2 == 0 then 0 else 8
  {
    hide WordsOf;
  }

  lemma ParseRegion(w: seq<Word>, first: Word, unused: Word, from: Word, to: Word, hash: seq<Word>)
    requires w == [first, unused, from, to] + hash && IsRegion(first) && !IsRule(first)
    requires |hash| == if HighHalf(first) == 0 then 0 else 8
    ensures w[0] == first && |w| == DefWords(w[0]) && ParseEntry(w) == SpiRegion(Byte1(first), HighHalf(first), from, to, hash)
  {
    assert w[4..] == hash;
    hide Byte1, HighHalf, IsRule, IsRegion;
  }

  lemma OneWord(b: seq<bv8>)
    requires |b| == 4
    ensures WordsOf(b) == [Bits.WordOf(b[0], b[1], b[2], b[3])]
  {
    hide Bits.WordOf;
  }

  lemma StartByte(w: Word)
    requires w & 0xFF == 1
    ensures IsRegion(w) && !IsRule(w)
  {
  }

  lemma NoAlgorithm(a: bv8, a2: bv8)
    ensures (a as bv16) | (a2 as bv16 << 8) == 0 <==> a == 0 && a2 == 0
  {
  }

  // Whatever definitions a manifest has, the walk over its bytes reads these, in order, and stops behind them at
  // the first byte that starts none
  lemma {:induction false} DefinitionsAreRead(xs: seq<Definition>, after: seq<Word>)
    requires (forall x | x in xs :: x.Formed()) && after != [] && after[0] & 0xFF != 1 && after[0] & 0xFF != 2
    ensures Terminated(AllWords(xs) + after) && Parse(AllWords(xs) + after) == AllRead(xs)
    decreases |xs|
  {
    if xs == [] {
      assert AllWords(xs) + after == after;
    } else {
      var w, rest := xs[0].Words(), AllWords(xs[1..]) + after;
      IsRead(xs[0]);
      DefinitionsAreRead(xs[1..], after);
      FirstThenRest(xs, after);
      hide *;
      ReadOn(w, rest, xs[0].Read());
    }
  }

  lemma IsRead(x: Definition)
    requires x.Formed()
    ensures var w := x.Words(); w != [] && (IsRule(w[0]) || IsRegion(w[0])) && |w| == DefWords(w[0]) && ParseEntry(w) == x.Read()
  {
    if x.Rule? { RuleIsRead(x); } else { RegionIsRead(x); }
    hide *;
  }

  lemma FirstThenRest(xs: seq<Definition>, after: seq<Word>)
    requires (forall x | x in xs :: x.Formed()) && xs != []
    ensures AllWords(xs) + after == xs[0].Words() + (AllWords(xs[1..]) + after)
    ensures AllRead(xs) == [xs[0].Read()] + AllRead(xs[1..])
  {
    ReadTail(xs);
    hide Definition.Words, Definition.Read, Definition.Formed, AllRead;
    Regroup(xs[0].Words(), AllWords(xs[1..]), after);
  }

  lemma ReadTail(xs: seq<Definition>)
    requires xs != []
    ensures AllRead(xs) == [xs[0].Read()] + AllRead(xs[1..])
  {
    hide Definition.Read;
  }

  lemma Regroup(a: seq<Word>, x: seq<Word>, after: seq<Word>)
    ensures (a + x) + after == a + (x + after)
  {
  }

  // A walk that starts with a definition goes on behind it
  lemma ReadOn(w: seq<Word>, rest: seq<Word>, e: Entry)
    requires w != [] && (IsRule(w[0]) || IsRegion(w[0])) && |w| == DefWords(w[0]) && ParseEntry(w) == e && Terminated(rest)
    ensures Terminated(w + rest) && Parse(w + rest) == [e] + Parse(rest)
  {
    assert (w + rest)[0] == w[0] && (w + rest)[..|w|] == w && (w + rest)[|w|..] == rest;
    hide DefWords, ParseEntry, IsRule, IsRegion;
  }

  // ---------------------------------------------------------------- what a manifest says

  // The device that a bus and a rule number stand for
  predicate Device(bus: bv8, rule: bv8, addr: bv8) {
    1 <= bus as nat <= 3 && 1 <= rule as nat <= 13 && addr == DEVICE_ADDRESSES[bus as nat - 1][rule as nat - 1]
  }

  // A region that may be read and not written, with a SHA-256 hash
  predicate HashedRegion(x: Definition) { x.Region? && x.mask & 3 == 1 && x.algorithm & 1 == 1 }

  // The bytes from an address up to another lie in the flash, and have this hash
  predicate HasHash(d: Authentication.Device, m: Mem, from: nat, to: nat, hash: seq<Word>) {
    from % 4 == 0 && to % 4 == 0 && from <= to <= 4 * |m| && d.sha(m[from / 4..to / 4]) == hash
  }

  lemma Masks(mask: bv8, a: bv8, a2: bv8)
    ensures (mask & 1 != 0 && !(mask & 2 != 0)) <==> mask & 3 == 1
    ensures ((a as bv16) | (a2 as bv16 << 8)) & 1 != 0 <==> a & 1 == 1
  {
  }

  lemma EntryIs(d: Authentication.Device, m: Mem, x: Definition)
    ensures EntryValid(d, m, x.Read())
       <==> if x.Rule? then Device(x.bus, x.rule, x.addr)
            else HashedRegion(x) ==> HasHash(d, m, x.from as nat, x.to as nat, x.hash)
  {
    if x.Region? {
      Masks(x.mask, x.algorithm, x.algorithm2);
      RegionIs(d, m, x, x.Read(), x.from as nat, x.to as nat);
    }
    hide HashedRegion, HasHash, RegionValid;
  }

  lemma RegionIs(d: Authentication.Device, m: Mem, x: Definition, e: Entry, from: nat, to: nat)
    requires x.Region? && e == x.Read() && Start(e) == from && End(e) == to && (Hashed(e) <==> HashedRegion(x))
    ensures RegionValid(d, m, e) <==> (HashedRegion(x) ==> HasHash(d, m, from, to, x.hash))
  {
    hide Hashed, HashedRegion, Start, End;
    WordBounds(from, to, |m|);
  }

  lemma WordBounds(from: nat, to: nat, n: nat)
    ensures from % 4 == 0 && to % 4 == 0 ==> (from / 4 <= to / 4 <= n <==> from <= to <= 4 * n)
  {
  }

  // A manifest of these definitions is valid for a flash exactly when every rule names the device of its bus and
  // number, and every static region with a SHA-256 hash has that hash
  lemma ManifestIsValidIff(d: Authentication.Device, m: Mem, xs: seq<Definition>)
    ensures BodyValid(d, m, AllRead(xs))
       <==> forall k | 0 <= k < |xs| ::
              if xs[k].Rule? then Device(xs[k].bus, xs[k].rule, xs[k].addr)
              else HashedRegion(xs[k]) ==> HasHash(d, m, xs[k].from as nat, xs[k].to as nat, xs[k].hash)
  {
    var es := AllRead(xs);
    hide EntryValid, Device, HashedRegion, HasHash;
    forall k | 0 <= k < |xs|
      ensures EntryValid(d, m, es[k])
         <==> if xs[k].Rule? then Device(xs[k].bus, xs[k].rule, xs[k].addr)
              else HashedRegion(xs[k]) ==> HasHash(d, m, xs[k].from as nat, xs[k].to as nat, xs[k].hash)
    {
      EntryIs(d, m, xs[k]);
    }
    assert forall k | 0 <= k < |xs| :: es[k] in es;
  }

  // A region that may be written holds the last byte of a 16KB page
  ghost predicate MayWrite(xs: seq<Definition>, p: nat) {
    exists k | 0 <= k < |xs| ::
      xs[k].Region? && xs[k].mask & 2 != 0 && xs[k].from as nat <= 16384 * p + 16383 < xs[k].to as nat
  }

  lemma {:induction false} RegionsOf(es: seq<Entry>)
    ensures forall e :: e in Regions(es) <==> e in es && e.SpiRegion?
    decreases |es|
  {
    if es != [] {
      RegionsOf(es[1..]);
      assert es == [es[0]] + es[1..];
    }
  }

  lemma MayWriteIs(xs: seq<Definition>, p: nat)
    ensures (forall e | e in Regions(AllRead(xs)) :: e.SpiRegion?)
    ensures MayWrite(xs, p) <==> WriteEnable.Writable(Regions(AllRead(xs)), p)
  {
    var es := AllRead(xs);
    RegionsOf(es);
    hide Regions;
    if MayWrite(xs, p) {
      var k :| 0 <= k < |xs| && xs[k].Region? && xs[k].mask & 2 != 0 && xs[k].from as nat <= 16384 * p + 16383 < xs[k].to as nat;
      assert es[k] in es && HoldsLastByte(es[k], p) && AllowsWrite(es[k]);
    }
    if WriteEnable.Writable(Regions(es), p) {
      var e :| e in Regions(es) && HoldsLastByte(e, p) && AllowsWrite(e);
      var k :| 0 <= k < |es| && es[k] == e;
      assert xs[k].Region?;
    }
  }

  // With the write enable memory filled from a manifest, and the CPLD recovery region overridden, the bit of a
  // page is set exactly when a region that may be written holds its last byte and it lies outside the 1MB from
  // 0x7F00000
  lemma ProtectedByManifest(xs: seq<Definition>, total: nat, we: seq<Word>, commits: seq<nat>, p: nat)
    requires (forall e | e in Regions(AllRead(xs)) :: e.SpiRegion?) && Exact(Regions(AllRead(xs)), total, we, commits)
    requires total >= 0x800_0000 && p / 32 < total / 524288
    ensures |we| >= 256
    ensures Bit(we[254 := 0][255 := 0][p / 32], p % 32) <==> MayWrite(xs, p) && !(0x7F0_0000 <= 16384 * p < 0x800_0000)
  {
    ProtectedFlash(Regions(AllRead(xs)), total, we, commits, p);
    MayWriteIs(xs, p);
    hide MayWrite, WriteEnable.Writable, Exact, Bit, Regions;
  }
}
