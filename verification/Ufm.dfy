/**
 The provisioned data page of the on-chip flash (fw/code/inc/ufm.h, ufm_utils.h,
 key_cancellation.h) as its 59 words. Words are written like any NOR flash word: bits can only
 be cleared until the page is erased.
 */
module Ufm {
  import opened NorFlash
  import opened Bits

  // UFM_PFR_DATA_SIZE / 4
  predicate IsPage(u: Mem) { |u| == 59 }

  function ErasedPage(): Mem { seq(59, i => ERASED) }

  // ---------------------------------------------------------------- SVN policies

  datatype SvnPolicy = CpldPolicy | PchPolicy | BmcPolicy

  // get_ufm_svn_policy_ptr as a word index into the page
  function SvnOffset(p: SvnPolicy): nat {
    match p case CpldPolicy => 33 case PchPolicy => 35 case BmcPolicy => 37
  }

  // Bit i of the 64-bit policy field
  predicate SvnBit(u: Mem, p: SvnPolicy, i: nat)
    requires IsPage(u) && i < 64
  {
    Bit(u[SvnOffset(p) + i / 32], i % 32)
  }

  // The minimum SVN is the number of zeros below the lowest one
  ghost predicate IsSvn(u: Mem, p: SvnPolicy, n: nat)
    requires IsPage(u)
  {
    n <= 64 && (forall i: nat | i < n :: !SvnBit(u, p, i)) && (n < 64 ==> SvnBit(u, p, n))
  }

  function FirstSet(u: Mem, p: SvnPolicy, i: nat): (n: nat)
    requires IsPage(u) && i <= 64
    ensures i <= n <= 64 && (n < 64 ==> SvnBit(u, p, n))
    ensures forall k: nat | i <= k < n :: !SvnBit(u, p, k)
    decreases 64 - i
  {
    if i == 64 || SvnBit(u, p, i) then i else FirstSet(u, p, i + 1)
  }

  function UfmSvn(u: Mem, p: SvnPolicy): (n: nat)
    requires IsPage(u)
    ensures IsSvn(u, p, n)
  {
    FirstSet(u, p, 0)
  }

  lemma SvnIsUnique(u: Mem, p: SvnPolicy, n: nat)
    requires IsPage(u) && IsSvn(u, p, n)
    ensures n == UfmSvn(u, p)
  {
    var m := UfmSvn(u, p);
    hide SvnBit;
    if m < n {
      assert false;
    } else if n < m {
      assert false;
    }
  }

  // is_svn_valid: the caller's value arrives as an 8-bit number
  predicate SvnAdmitted(u: Mem, p: SvnPolicy, svn: nat)
    requires IsPage(u)
  {
    UfmSvn(u, p) <= svn % 256 <= 64
  }

  // The word write_ufm_svn computes
  function NewPolicy(svn: nat): Word { FromUp(ERASED, svn % 32) }

  // write_ufm_svn as the words it programs, in order
  function SvnWrites(u: Mem, p: SvnPolicy, svn: nat): (ops: seq<Op>)
    requires IsPage(u)
  {
    var at := SvnOffset(p);
    if svn <= UfmSvn(u, p) then []
    else if svn < 32 then [Program(at, NewPolicy(svn))]
    else if svn < 64 then [Program(at, 0), Program(at + 1, NewPolicy(svn))]
    else if svn == 64 then [Program(at, 0), Program(at + 1, 0)]
    else [Program(at, 0)]
  }

  function SvnWritten(u: Mem, p: SvnPolicy, svn: nat): (r: Mem)
    requires IsPage(u)
    ensures IsPage(r)
  {
    Run(u, SvnWrites(u, p, svn))
  }

  lemma SvnWriteTouchesField(u: Mem, p: SvnPolicy, svn: nat)
    requires IsPage(u)
    ensures forall i: nat | i < 59 && i != SvnOffset(p) && i != SvnOffset(p) + 1 :: SvnWritten(u, p, svn)[i] == u[i]
  {
    hide FromUp, UfmSvn, Apply;
    forall i: nat | i < 59 && i != SvnOffset(p) && i != SvnOffset(p) + 1
      ensures SvnWritten(u, p, svn)[i] == u[i]
    {
      RunFrame(u, SvnWrites(u, p, svn), i);
    }
  }

  // ---------------------------------------------------------------- what a write leaves

  // Writing svn <= 64 clears the bits below it; a larger value clears the first word only
  function Cut(svn: nat): nat { if svn <= 64 then svn else 32 }

  function Max(a: nat, b: nat): nat { if a < b then b else a }

  // What the two words of the field are programmed with
  function LowWord(svn: nat): Word { if svn < 32 then NewPolicy(svn) else 0 }

  function HighWord(svn: nat): Word {
    if svn < 32 || svn > 64 then ERASED else if svn < 64 then NewPolicy(svn) else 0
  }

  lemma LowWordBits(svn: nat, k: nat)
    requires k < 32
    ensures Bit(LowWord(svn), k) <==> k >= Cut(svn)
    ensures Bit(HighWord(svn), k) <==> k + 32 >= Cut(svn)
  {
    BitOfOnes(k);
    BitOfFromUp(ERASED, svn % 32, k);
    hide NewPolicy, Bit;
  }

  lemma SvnWrittenWords(u: Mem, p: SvnPolicy, svn: nat)
    requires IsPage(u) && svn > UfmSvn(u, p)
    ensures var at, r := SvnOffset(p), SvnWritten(u, p, svn);
            r[at] == Nor(u[at], LowWord(svn)) && r[at + 1] == Nor(u[at + 1], HighWord(svn))
  {
    var at := SvnOffset(p);
    ErasedKeeps(u[at + 1]);
    ProgramTwo(u, at, LowWord(svn), at + 1, HighWord(svn));
    assert SvnWrites(u, p, svn) == if svn < 32 || svn > 64 then [Program(at, LowWord(svn))]
      else [Program(at, LowWord(svn)), Program(at + 1, HighWord(svn))];
    hide NewPolicy, UfmSvn, Nor, Run, LowWord, HighWord, SvnWrites;
    if svn < 32 || svn > 64 {
      assert HighWord(svn) == ERASED by { HighWordErased(svn); }
    }
  }

  lemma HighWordErased(svn: nat)
    requires svn < 32 || svn > 64
    ensures HighWord(svn) == ERASED
  {
  }

  lemma ErasedKeeps(w: Word)
    ensures Nor(w, ERASED) == w
  {
  }

  lemma FieldBit(u: Mem, p: SvnPolicy, i: nat)
    requires IsPage(u) && i < 64
    ensures SvnBit(u, p, i) == if i < 32 then Bit(u[SvnOffset(p)], i % 32) else Bit(u[SvnOffset(p) + 1], i % 32)
  {
    hide Bit;
  }

  lemma NotWritten(u: Mem, p: SvnPolicy, svn: nat, i: nat)
    requires IsPage(u) && i < 64 && svn <= UfmSvn(u, p)
    ensures SvnWritten(u, p, svn) == u && (SvnBit(u, p, i) ==> i >= Cut(svn))
  {
    assert IsSvn(u, p, UfmSvn(u, p));
    hide SvnBit;
  }

  lemma SvnWrittenBits(u: Mem, p: SvnPolicy, svn: nat, i: nat)
    requires IsPage(u) && i < 64
    ensures SvnBit(SvnWritten(u, p, svn), p, i) <==> SvnBit(u, p, i) && i >= Cut(svn)
  {
    hide *;
    if svn <= UfmSvn(u, p) {
      NotWritten(u, p, svn, i);
    } else {
      SvnWrittenWords(u, p, svn);
      LowWordBits(svn, i % 32);
      FieldBit(u, p, i);
      FieldBit(SvnWritten(u, p, svn), p, i);
      FieldOnPage(p);
      BitOfNor(u[SvnOffset(p)], LowWord(svn), i % 32);
      BitOfNor(u[SvnOffset(p) + 1], HighWord(svn), i % 32);
    }
  }

  lemma FieldOnPage(p: SvnPolicy)
    ensures SvnOffset(p) + 1 < 59 && forall u: Mem :: IsPage(u) <==> |u| == 59
  {
  }

  // The read after a write of svn <= 64 gives the larger of the two exactly when the bit the
  // write relies on was still set; whatever else the field held does not matter
  lemma WriteThenReadIff(u: Mem, p: SvnPolicy, svn: nat)
    requires IsPage(u) && svn <= 64
    ensures UfmSvn(SvnWritten(u, p, svn), p) == Max(UfmSvn(u, p), svn)
            <==> svn <= UfmSvn(u, p) || svn == 64 || SvnBit(u, p, svn)
  {
    var r := SvnWritten(u, p, svn);
    forall i: nat | i < 64 ensures SvnBit(r, p, i) <==> SvnBit(u, p, i) && i >= svn {
      SvnWrittenBits(u, p, svn, i);
    }
    hide SvnBit, SvnWritten;
    var before := UfmSvn(u, p);
    if svn <= before {
      SvnIsUnique(r, p, before);
    } else if svn == 64 || SvnBit(u, p, svn) {
      SvnIsUnique(r, p, svn);
    }
  }

  // An erased field but for bit 3: writing 3 leaves a minimum that is not 3. By ErasedThenWrites no sequence
  // of writes leads from an erased page to such a field; it takes contents that came about in another way.
  lemma WriteThenReadCanMiss()
    ensures var u := ErasedPage()[33 := 0xFFFF_FFF7];
            UfmSvn(u, CpldPolicy) == 0 && UfmSvn(SvnWritten(u, CpldPolicy, 3), CpldPolicy) != 3
  {
    var u := ErasedPage()[33 := 0xFFFF_FFF7];
    assert SvnBit(u, CpldPolicy, 0) && !SvnBit(u, CpldPolicy, 3);
    hide SvnWritten, SvnBit;
    SvnIsUnique(u, CpldPolicy, 0);
    WriteThenReadIff(u, CpldPolicy, 3);
  }

  // A field that is zeros then ones, as the documentation describes it
  ghost predicate Unary(u: Mem, p: SvnPolicy)
    requires IsPage(u)
  {
    forall i: nat | i < 64 :: SvnBit(u, p, i) <==> i >= UfmSvn(u, p)
  }

  // On such a field every write works, also one of a value beyond 64: it then stands for 32
  lemma WriteKeepsUnary(u: Mem, p: SvnPolicy, svn: nat)
    requires IsPage(u) && Unary(u, p)
    ensures Unary(SvnWritten(u, p, svn), p)
    ensures UfmSvn(SvnWritten(u, p, svn), p) == Max(UfmSvn(u, p), Cut(svn))
  {
    var r, n := SvnWritten(u, p, svn), Max(UfmSvn(u, p), Cut(svn));
    forall i: nat | i < 64 ensures SvnBit(r, p, i) <==> i >= n {
      SvnWrittenBits(u, p, svn, i);
    }
    hide SvnBit, SvnWritten;
    SvnIsUnique(r, p, n);
  }

  function WriteAll(u: Mem, p: SvnPolicy, svns: seq<nat>): (r: Mem)
    requires IsPage(u)
    ensures IsPage(r)
    decreases |svns|
  {
    if svns == [] then u else WriteAll(SvnWritten(u, p, svns[0]), p, svns[1..])
  }

  function MaxCut(svns: seq<nat>): nat {
    if svns == [] then 0 else Max(Cut(svns[0]), MaxCut(svns[1..]))
  }

  lemma {:induction false} WritesKeepUnary(u: Mem, p: SvnPolicy, svns: seq<nat>)
    requires IsPage(u) && Unary(u, p)
    ensures Unary(WriteAll(u, p, svns), p)
    ensures UfmSvn(WriteAll(u, p, svns), p) == Max(UfmSvn(u, p), MaxCut(svns))
    decreases |svns|
  {
    if svns != [] {
      WriteKeepsUnary(u, p, svns[0]);
      hide Unary, UfmSvn, SvnWritten;
      WritesKeepUnary(SvnWritten(u, p, svns[0]), p, svns[1..]);
    }
  }

  // From an erased page, any sequence of writes leaves the largest of them
  lemma ErasedThenWrites(p: SvnPolicy, svns: seq<nat>)
    ensures Unary(WriteAll(ErasedPage(), p, svns), p)
    ensures UfmSvn(WriteAll(ErasedPage(), p, svns), p) == MaxCut(svns)
  {
    forall i: nat | i < 64 ensures SvnBit(ErasedPage(), p, i) {
      BitOfOnes(i % 32);
    }
    SvnIsUnique(ErasedPage(), p, 0);
    WritesKeepUnary(ErasedPage(), p, svns);
  }

  // The 8-bit parameter of the admission check lets a 32-bit CPLD SVN beyond 64 through: an
  // admitted SVN is in range exactly when it fits the parameter
  lemma CpldAdmissionInRangeIff(u: Mem, svn: nat)
    requires IsPage(u) && svn < 0x1_0000_0000 && SvnAdmitted(u, CpldPolicy, svn)
    ensures UfmSvn(u, CpldPolicy) <= svn <= 64 <==> svn < 256
  {
  }

  // Writing 261, admitted as 5 on a fresh page, raises the minimum to 32
  lemma CpldAdmissionCanMislead()
    ensures SvnAdmitted(ErasedPage(), CpldPolicy, 261)
    ensures UfmSvn(SvnWritten(ErasedPage(), CpldPolicy, 261), CpldPolicy) == 32
  {
    ErasedThenWrites(CpldPolicy, []);
    ErasedThenWrites(CpldPolicy, [261]);
    assert WriteAll(ErasedPage(), CpldPolicy, [261])
        == WriteAll(SvnWritten(ErasedPage(), CpldPolicy, 261), CpldPolicy, []);
  }

  // ---------------------------------------------------------------- writing again

  // A word of the field is determined by its bits
  lemma SameWord(u: Mem, v: Mem, p: SvnPolicy, w: nat)
    requires IsPage(u) && IsPage(v) && w < 2
    requires forall i: nat | i < 64 :: SvnBit(u, p, i) <==> SvnBit(v, p, i)
    ensures SvnOffset(p) + w < 59 && u[SvnOffset(p) + w] == v[SvnOffset(p) + w]
  {
    FieldOnPage(p);
    var a, b := u[SvnOffset(p) + w], v[SvnOffset(p) + w];
    forall k: nat | k < 32 ensures Bit(a, k) <==> Bit(b, k) {
      FieldBit(u, p, k + 32 * w);
      FieldBit(v, p, k + 32 * w);
      assert SvnBit(u, p, k + 32 * w) <==> SvnBit(v, p, k + 32 * w);
      hide SvnBit, Bit;
    }
    hide Bit, SvnBit;
    SameBits(a, b);
  }

  // Two pages agree when they agree outside the field and bit by bit in the field
  lemma SameField(u: Mem, v: Mem, p: SvnPolicy)
    requires IsPage(u) && IsPage(v)
    requires forall i: nat | i < 59 && i != SvnOffset(p) && i != SvnOffset(p) + 1 :: u[i] == v[i]
    requires forall i: nat | i < 64 :: SvnBit(u, p, i) <==> SvnBit(v, p, i)
    ensures u == v
  {
    SameWord(u, v, p, 0);
    SameWord(u, v, p, 1);
    hide SvnBit, SvnOffset;
  }

  // A write that was cut short has cleared no bit that a complete one keeps
  lemma CutWriteBits(u: Mem, p: SvnPolicy, svn: nat, k: nat, i: nat)
    requires IsPage(u) && k <= |SvnWrites(u, p, svn)| && i < 64
    ensures var v := Run(u, SvnWrites(u, p, svn)[..k]);
            (SvnBit(v, p, i) ==> SvnBit(u, p, i)) && (SvnBit(u, p, i) && i >= Cut(svn) ==> SvnBit(v, p, i))
  {
    var w := SvnWrites(u, p, svn);
    var v := Run(u, w[..k]);
    if k == |w| {
      assert w[..k] == w;
      SvnWrittenBits(u, p, svn, i);
    } else if k == 0 {
      assert w[..0] == [] && v == u;
    } else {
      FirstOfTwo(u, p, svn);
      LowWordBits(svn, i % 32);
      FieldBit(u, p, i);
      FieldBit(v, p, i);
      BitOfNor(u[SvnOffset(p)], LowWord(svn), i % 32);
    }
    hide SvnBit, SvnWrites, Run, Bit, Nor, LowWord;
  }

  lemma FirstOfTwo(u: Mem, p: SvnPolicy, svn: nat)
    requires IsPage(u) && |SvnWrites(u, p, svn)| == 2
    ensures var at := SvnOffset(p);
            Run(u, SvnWrites(u, p, svn)[..1]) == u[at := Nor(u[at], LowWord(svn))]
  {
    var at, w := SvnOffset(p), SvnWrites(u, p, svn);
    assert w[0] == Program(at, LowWord(svn));
    assert w[..1] == [w[0]];
    ProgramTwo(u, at, LowWord(svn), at + 1, 0);
    hide Run, Nor, SvnWrites, LowWord;
  }

  // Starting a write again after it was cut short ends with the same page
  lemma SvnWriteRestarts(u: Mem, p: SvnPolicy, svn: nat, k: nat)
    requires IsPage(u) && k <= |SvnWrites(u, p, svn)|
    ensures SvnWritten(Run(u, SvnWrites(u, p, svn)[..k]), p, svn) == SvnWritten(u, p, svn)
  {
    var v := Run(u, SvnWrites(u, p, svn)[..k]);
    var once, again := SvnWritten(u, p, svn), SvnWritten(v, p, svn);
    forall i: nat | i < 64 ensures SvnBit(again, p, i) <==> SvnBit(once, p, i) {
      CutWriteBits(u, p, svn, k, i);
      SvnWrittenBits(u, p, svn, i);
      SvnWrittenBits(v, p, svn, i);
      hide SvnBit, SvnWritten, SvnWrites, Run, Cut;
    }
    SvnWriteTouchesField(u, p, svn);
    SvnWriteTouchesField(v, p, svn);
    CutTouchesField(u, p, svn, k);
    hide SvnBit, SvnWritten, SvnWrites, Run;
    SameField(again, once, p);
  }

  lemma CutTouchesField(u: Mem, p: SvnPolicy, svn: nat, k: nat)
    requires IsPage(u) && k <= |SvnWrites(u, p, svn)|
    ensures forall i: nat | i < 59 && i != SvnOffset(p) && i != SvnOffset(p) + 1 :: Run(u, SvnWrites(u, p, svn)[..k])[i] == u[i]
  {
    hide NewPolicy, UfmSvn, Apply;
    var cut := SvnWrites(u, p, svn)[..k];
    forall i: nat | i < 59 && i != SvnOffset(p) && i != SvnOffset(p) + 1
      ensures Run(u, cut)[i] == u[i]
    {
      RunFrame(u, cut, i);
    }
  }

  // ---------------------------------------------------------------- key cancellation

  // get_ufm_key_cancel_policy_ptr: every type but the first four falls to the last policy
  function CancelOffset(pcType: nat): nat {
    match pcType case 0 => 55 case 1 => 39 case 2 => 43 case 3 => 47 case _ => 51
  }

  // is_csk_key_valid
  predicate KeyValid(u: Mem, pcType: nat, id: nat)
    requires IsPage(u)
  {
    id <= 127 && Bit(u[CancelOffset(pcType) + id / 32], 31 - id % 32)
  }

  // cancel_key
  function KeyCancelled(u: Mem, pcType: nat, id: nat): (r: Mem)
    requires IsPage(u) && id <= 127
    ensures IsPage(r)
  {
    var at := CancelOffset(pcType) + id / 32;
    u[at := Cleared(u[at], 31 - id % 32)]
  }

  datatype Cancellation = Cancellation(pcType: nat, id: nat)

  function CancelAll(u: Mem, cs: seq<Cancellation>): (r: Mem)
    requires IsPage(u) && forall c | c in cs :: c.id <= 127
    ensures IsPage(r)
    decreases |cs|
  {
    if cs == [] then u else CancelAll(KeyCancelled(u, cs[0].pcType, cs[0].id), cs[1..])
  }

  lemma OwnPlace(a: nat, i: nat, b: nat, j: nat)
    requires a <= 4 && b <= 4 && i <= 127 && j <= 127
    ensures CancelOffset(a) + i / 32 == CancelOffset(b) + j / 32 && 31 - i % 32 == 31 - j % 32
            <==> a == b && i == j
    ensures CancelOffset(a) + i / 32 < 59
  {
  }

  function KeyWord(pcType: nat, id: nat): nat { CancelOffset(pcType) + id / 32 }

  lemma KeyBit(u: Mem, pcType: nat, id: nat)
    requires IsPage(u) && pcType <= 4 && id <= 127
    ensures KeyWord(pcType, id) < |u| && (KeyValid(u, pcType, id) <==> Bit(u[KeyWord(pcType, id)], 31 - id % 32))
  {
    OwnPlace(pcType, id, pcType, id);
    hide Bit;
  }

  lemma CancelledWord(u: Mem, c: Cancellation, at: nat)
    requires IsPage(u) && c.pcType <= 4 && c.id <= 127 && at < |u|
    ensures KeyCancelled(u, c.pcType, c.id)[at]
         == if at == KeyWord(c.pcType, c.id) then Cleared(u[at], 31 - c.id % 32) else u[at]
  {
    hide Cleared;
  }

  lemma CancelOne(u: Mem, c: Cancellation, pcType: nat, id: nat)
    requires IsPage(u) && c.id <= 127 && c.pcType <= 4 && pcType <= 4
    ensures KeyValid(KeyCancelled(u, c.pcType, c.id), pcType, id)
            <==> KeyValid(u, pcType, id) && c != Cancellation(pcType, id)
  {
    var v, at := KeyCancelled(u, c.pcType, c.id), KeyWord(pcType, id);
    if id > 127 {
      NoSuchKey(u, pcType, id);
      NoSuchKey(v, pcType, id);
    } else {
      KeyBit(u, pcType, id);
      KeyBit(v, pcType, id);
      CancelledWord(u, c, at);
      BitOfCleared(u[at], 31 - c.id % 32, 31 - id % 32);
      OwnPlace(c.pcType, c.id, pcType, id);
    }
    hide KeyValid, KeyCancelled, Bit, Cleared, CancelOffset;
  }

  lemma NoSuchKey(u: Mem, pcType: nat, id: nat)
    requires IsPage(u) && id > 127
    ensures !KeyValid(u, pcType, id)
  {
  }

  // After any sequence of cancellations exactly the cancelled IDs of each type are gone
  lemma {:induction false} CancelledKeys(u: Mem, cs: seq<Cancellation>, pcType: nat, id: nat)
    requires IsPage(u) && pcType <= 4 && forall c | c in cs :: c.id <= 127 && c.pcType <= 4
    ensures KeyValid(CancelAll(u, cs), pcType, id)
            <==> KeyValid(u, pcType, id) && Cancellation(pcType, id) !in cs
    decreases |cs|
  {
    if cs != [] {
      CancelOne(u, cs[0], pcType, id);
      hide KeyValid, KeyCancelled;
      CancelledKeys(KeyCancelled(u, cs[0].pcType, cs[0].id), cs[1..], pcType, id);
    }
  }

  // ---------------------------------------------------------------- in place

  // A store to the memory-mapped page
  method Store(page: array<Word>, at: nat, data: Word)
    requires at < page.Length
    modifies page
    ensures page[..] == old(page[..])[at := Nor(old(page[at]), data)]
  {
    page[at] := Nor(page[at], data);
  }

  method UfmErasePage(page: array<Word>)
    requires page.Length == 59
    modifies page
    ensures page[..] == ErasedPage()
  {
    forall i | 0 <= i < 59 {
      page[i] := ERASED;
    }
  }

  method GetUfmSvn(page: array<Word>, p: SvnPolicy) returns (n: nat)
    requires page.Length == 59
    ensures n == UfmSvn(page[..], p)
  {
    hide Bit;
    var at := SvnOffset(p);
    for i := 0 to 64
      invariant forall k: nat | k < i :: !SvnBit(page[..], p, k)
    {
      if Bit(page[at + i / 32], i % 32) {
        SvnIsUnique(page[..], p, i);
        return i;
      }
    }
    SvnIsUnique(page[..], p, 64);
    return 64;
  }

  method WriteUfmSvn(page: array<Word>, svn: nat, p: SvnPolicy)
    requires page.Length == 59
    modifies page
    ensures page[..] == SvnWritten(old(page[..]), p, svn)
  {
    hide *;
    ghost var u := page[..];
    var svnInUfm := GetUfmSvn(page, p);
    var at := SvnOffset(p);
    FieldOnPage(p);
    WrittenInSteps(u, p, svn);
    if svn > svnInUfm {
      var newPolicy := NewPolicy(svn);
      if svn < 32 {
        Store(page, at, newPolicy);
      } else {
        Store(page, at, 0);
        if svn < 64 {
          Store(page, at + 1, newPolicy);
        } else if svn == 64 {
          Store(page, at + 1, 0);
        }
      }
    }
  }

  lemma WrittenInSteps(u: Mem, p: SvnPolicy, svn: nat)
    requires IsPage(u)
    ensures var at, policy := SvnOffset(p), NewPolicy(svn);
            at + 1 < 59 && SvnWritten(u, p, svn) ==
              if svn <= UfmSvn(u, p) then u
              else if svn < 32 then u[at := Nor(u[at], policy)]
              else if svn < 64 then u[at := Nor(u[at], 0)][at + 1 := Nor(u[at + 1], policy)]
              else if svn == 64 then u[at := Nor(u[at], 0)][at + 1 := Nor(u[at + 1], 0)]
              else u[at := Nor(u[at], 0)]
  {
    var at, policy := SvnOffset(p), NewPolicy(svn);
    WrittenAs(u, p, svn);
    hide *;
    ProgramTwo(u, at, if svn < 32 then policy else 0, at + 1, if svn < 64 then policy else 0);
  }

  lemma WrittenAs(u: Mem, p: SvnPolicy, svn: nat)
    requires IsPage(u)
    ensures var at, policy := SvnOffset(p), NewPolicy(svn);
            && at + 1 < |u| == 59 && Run(u, []) == u
            && SvnWritten(u, p, svn) == Run(u, if svn <= UfmSvn(u, p) then []
                                               else if svn < 32 then [Program(at, policy)]
                                               else if svn < 64 then [Program(at, 0), Program(at + 1, policy)]
                                               else if svn == 64 then [Program(at, 0), Program(at + 1, 0)]
                                               else [Program(at, 0)])
  {
    hide NewPolicy, UfmSvn, Apply;
  }

  method CancelKey(page: array<Word>, pcType: nat, id: nat)
    requires page.Length == 59 && id <= 127
    modifies page
    ensures page[..] == KeyCancelled(old(page[..]), pcType, id)
  {
    var at := CancelOffset(pcType) + id / 32;
    ClearTwice(page[at], Mask(31 - id % 32));
    hide Mask, Nor, Without;
    Store(page, at, Cleared(page[at], 31 - id % 32));
  }

  // Storing back a word with some bits cleared clears them
  lemma ClearTwice(w: Word, m: Word)
    ensures Nor(w, Without(w, m)) == Without(w, m)
  {
    var v := !m;
    NorAgain(w, v, w & v);
    hide Nor;
  }

  lemma NorAgain(w: Word, v: Word, x: Word)
    requires x == w & v
    ensures Nor(w, x) == x
  {
  }

  // set_ufm_status
  method SetUfmStatus(page: array<Word>, mask: Word)
    requires page.Length == 59
    modifies page
    ensures page[..] == old(page[..])[0 := Without(old(page[0]), mask)]
  {
    ClearTwice(page[0], mask);
    Store(page, 0, Without(page[0], mask));
  }

  // ---------------------------------------------------------------- between erases

  predicate OnlyPrograms(ops: seq<Op>) { forall op | op in ops :: op.Program? }

  lemma {:induction false} ProgramsOnlyClear(u: Mem, ops: seq<Op>, i: nat, k: nat)
    requires i < |u| && k < 32 && OnlyPrograms(ops)
    ensures Bit(Run(u, ops)[i], k) ==> Bit(u[i], k)
    decreases |ops|
  {
    if ops != [] {
      var op := ops[0];
      BitOfNor(u[i], op.data, k);
      hide Bit, Nor;
      ProgramsOnlyClear(Apply(u, op), ops[1..], i, k);
    }
  }

  // No bit is set that was clear before
  ghost predicate OnlyCleared(u: Mem, r: Mem) {
    |r| == |u| && forall i: nat, k: nat | i < |u| && k < 32 :: Bit(r[i], k) ==> Bit(u[i], k)
  }

  lemma ClearedKeepsSvn(u: Mem, r: Mem, p: SvnPolicy)
    requires IsPage(u) && IsPage(r) && OnlyCleared(u, r)
    ensures UfmSvn(r, p) >= UfmSvn(u, p)
  {
    var n := UfmSvn(r, p);
    hide Bit, UfmSvn;
    assert IsSvn(r, p, n) && IsSvn(u, p, UfmSvn(u, p));
    assert n < 64 ==> SvnBit(r, p, n) && SvnBit(u, p, n);
  }

  lemma ClearedKeepsCancelled(u: Mem, r: Mem, pcType: nat, id: nat)
    requires IsPage(u) && IsPage(r) && OnlyCleared(u, r)
    ensures KeyValid(r, pcType, id) ==> KeyValid(u, pcType, id)
  {
    hide Bit;
  }

  lemma ProgramsOnlyClearPage(u: Mem, ops: seq<Op>)
    requires OnlyPrograms(ops)
    ensures OnlyCleared(u, Run(u, ops))
  {
    hide Run, Bit;
    forall i: nat, k: nat | i < |u| && k < 32 ensures Bit(Run(u, ops)[i], k) ==> Bit(u[i], k) {
      ProgramsOnlyClear(u, ops, i, k);
    }
  }

  lemma ClearedTwice(u: Mem, v: Mem, r: Mem)
    requires OnlyCleared(u, v) && OnlyCleared(v, r)
    ensures OnlyCleared(u, r)
  {
    hide Bit;
  }

  lemma NothingCleared(u: Mem)
    ensures OnlyCleared(u, u)
  {
  }

  // Raising a minimum SVN and cancelling a key only clear bits
  lemma SvnWriteOnlyClears(u: Mem, p: SvnPolicy, svn: nat)
    requires IsPage(u)
    ensures OnlyCleared(u, SvnWritten(u, p, svn))
  {
    hide UfmSvn, NewPolicy, OnlyCleared, Run;
    assert SvnWritten(u, p, svn) == Run(u, SvnWrites(u, p, svn)) && OnlyPrograms(SvnWrites(u, p, svn));
    ProgramsOnlyClearPage(u, SvnWrites(u, p, svn));
  }

  lemma CancelOnlyClears(u: Mem, pcType: nat, id: nat)
    requires IsPage(u) && id <= 127
    ensures OnlyCleared(u, KeyCancelled(u, pcType, id))
  {
    var at := CancelOffset(pcType) + id / 32;
    forall i: nat, k: nat | i < |u| && k < 32 ensures Bit(KeyCancelled(u, pcType, id)[i], k) ==> Bit(u[i], k) {
      if i == at {
        BitOfCleared(u[at], 31 - id % 32, k);
      }
    }
    hide Bit, Cleared;
  }

  // Whatever is written to the page without erasing it, no minimum SVN goes down and no
  // cancelled key comes back
  lemma BetweenErases(u: Mem, ops: seq<Op>, p: SvnPolicy, pcType: nat, id: nat)
    requires IsPage(u) && OnlyPrograms(ops)
    ensures UfmSvn(Run(u, ops), p) >= UfmSvn(u, p)
    ensures KeyValid(Run(u, ops), pcType, id) ==> KeyValid(u, pcType, id)
  {
    hide Run, Bit, UfmSvn, KeyValid, OnlyCleared;
    var r := Run(u, ops);
    ProgramsOnlyClearPage(u, ops);
    ClearedKeepsSvn(u, r, p);
    ClearedKeepsCancelled(u, r, pcType, id);
  }
}
