/**
 The layout of the provisioned data page (fw/code/inc/ufm.h): its fields one after the other, and where
 each part of the firmware finds them.
 */
module PageFormat {
  import opened NorFlash
  import opened Sequences
  import opened Bits
  import opened Ufm
  import opened Provisioning

  // UFM_PFR_DATA
  datatype PfrData = PfrData(
    status: Word,
    rootKeyHash: seq<Word>,
    pchOffsets: seq<Word>,
    bmcOffsets: seq<Word>,
    pitId: seq<Word>,
    pchHash: seq<Word>,
    bmcHash: seq<Word>,
    svnCpld: seq<Word>,
    svnPch: seq<Word>,
    svnBmc: seq<Word>,
    cancelPchPfm: seq<Word>,
    cancelPchCapsule: seq<Word>,
    cancelBmcPfm: seq<Word>,
    cancelBmcCapsule: seq<Word>,
    cancelCpldCapsule: seq<Word>)
  {
    predicate Valid() {
      && |rootKeyHash| == 8 && |pchOffsets| == 3 && |bmcOffsets| == 3 && |pitId| == 2 && |pchHash| == 8 && |bmcHash| == 8
      && |svnCpld| == 2 && |svnPch| == 2 && |svnBmc| == 2
      && |cancelPchPfm| == 4 && |cancelPchCapsule| == 4 && |cancelBmcPfm| == 4 && |cancelBmcCapsule| == 4 && |cancelCpldCapsule| == 4
    }

    function Keys(): seq<Word> { cancelPchPfm + (cancelPchCapsule + (cancelBmcPfm + (cancelBmcCapsule + (cancelCpldCapsule + [])))) }

    function Policies(): seq<Word> { svnCpld + (svnPch + (svnBmc + Keys())) }

    function Words(): seq<Word> {
      [status] + (rootKeyHash + (pchOffsets + (bmcOffsets + (pitId + (pchHash + (bmcHash + Policies()))))))
    }

    // The field a provisioning command or the protect-in-transit check fills
    function Of(fd: Field): seq<Word> {
      match fd
      case RootKey => rootKeyHash case PchOffsets => pchOffsets case BmcOffsets => bmcOffsets
      case PitId => pitId case PchHash => pchHash case BmcHash => bmcHash
    }

    function Svn(p: SvnPolicy): seq<Word> {
      match p case CpldPolicy => svnCpld case PchPolicy => svnPch case BmcPolicy => svnBmc
    }

    // The keys of each type of protected content
    function Cancelled(pcType: nat): seq<Word> {
      match pcType
      case 0 => cancelCpldCapsule case 1 => cancelPchPfm case 2 => cancelPchCapsule case 3 => cancelBmcPfm case _ => cancelBmcCapsule
    }
  }

  // The field x lies at a place of the page, and the rest follows
  lemma FieldAt(u: seq<Word>, at: nat, x: seq<Word>, rest: seq<Word>)
    requires at <= |u| && u[at..] == x + rest
    ensures at + |x| <= |u| && u[at..at + |x|] == x && u[at + |x|..] == rest
  {
    assert u[at..][..|x|] == x && u[at..][|x|..] == rest;
  }

  // Where the fields are
  lemma FieldsInOrder(f: PfrData)
    requires f.Valid()
    ensures var u := f.Words();
            && |u| == 59 && u[0] == f.status && u[1..9] == f.rootKeyHash && u[9..12] == f.pchOffsets && u[12..15] == f.bmcOffsets
            && u[15..17] == f.pitId && u[17..25] == f.pchHash && u[25..33] == f.bmcHash && u[33..] == f.Policies()
  {
    PolicyWords(f);
    hide PfrData.Policies;
    var u, r7 := f.Words(), f.Policies();
    var r6 := f.bmcHash + r7;
    var r5 := f.pchHash + r6;
    var r4 := f.pitId + r5;
    var r3 := f.bmcOffsets + r4;
    var r2 := f.pchOffsets + r3;
    var r1 := f.rootKeyHash + r2;
    assert u == [f.status] + r1;
    hide PfrData.Words;
    FieldAt(u, 0, [f.status], r1);
    FieldAt(u, 1, f.rootKeyHash, r2);
    FieldAt(u, 9, f.pchOffsets, r3);
    FieldAt(u, 12, f.bmcOffsets, r4);
    FieldAt(u, 15, f.pitId, r5);
    FieldAt(u, 17, f.pchHash, r6);
    FieldAt(u, 25, f.bmcHash, r7);
  }

  lemma PolicyWords(f: PfrData)
    requires f.Valid()
    ensures |f.Policies()| == 26
  {
  }

  lemma PoliciesInOrder(f: PfrData, u: seq<Word>)
    requires f.Valid() && |u| == 59 && u[33..] == f.Policies()
    ensures && u[33..35] == f.svnCpld && u[35..37] == f.svnPch && u[37..39] == f.svnBmc
            && u[39..43] == f.cancelPchPfm && u[43..47] == f.cancelPchCapsule && u[47..51] == f.cancelBmcPfm
            && u[51..55] == f.cancelBmcCapsule && u[55..59] == f.cancelCpldCapsule
  {
    FieldAt(u, 33, f.svnCpld, f.svnPch + (f.svnBmc + f.Keys()));
    FieldAt(u, 35, f.svnPch, f.svnBmc + f.Keys());
    FieldAt(u, 37, f.svnBmc, f.Keys());
    FieldAt(u, 39, f.cancelPchPfm, f.cancelPchCapsule + (f.cancelBmcPfm + (f.cancelBmcCapsule + (f.cancelCpldCapsule + []))));
    FieldAt(u, 43, f.cancelPchCapsule, f.cancelBmcPfm + (f.cancelBmcCapsule + (f.cancelCpldCapsule + [])));
    FieldAt(u, 47, f.cancelBmcPfm, f.cancelBmcCapsule + (f.cancelCpldCapsule + []));
    FieldAt(u, 51, f.cancelBmcCapsule, f.cancelCpldCapsule + []);
    FieldAt(u, 55, f.cancelCpldCapsule, []);
  }

  lemma Inner(u: seq<Word>, at: nat, x: seq<Word>, i: nat)
    requires at + |x| <= |u| && u[at..at + |x|] == x && i < |x|
    ensures u[at + i] == x[i]
  {
    assert u[at..at + |x|][i] == x[i];
  }

  // Every part of the firmware that reads the page reads the field meant for it: provisioning commands and
  // the protect-in-transit check, the minimum SVNs bit by bit, and the key cancellations bit by bit, the
  // first key of a type in the highest bit of its first word
  lemma PageIsReadByField(f: PfrData, fd: Field, p: SvnPolicy, i: nat, pcType: nat, id: nat)
    requires f.Valid() && i < 64 && pcType <= 4
    ensures IsPage(f.Words()) && Content(f.Words(), fd) == f.Of(fd)
    ensures SvnBit(f.Words(), p, i) <==> Bit(f.Svn(p)[i / 32], i % 32)
    ensures KeyValid(f.Words(), pcType, id) <==> id <= 127 && Bit(f.Cancelled(pcType)[id / 32], 31 - id % 32)
  {
    var u := f.Words();
    FieldsInOrder(f);
    PoliciesInOrder(f, u);
    hide PfrData.Words, PfrData.Policies, Bit;
    PolicyBit(f, u, p, i);
    KeyBitOf(f, u, pcType, id);
  }

  lemma PolicyBit(f: PfrData, u: Mem, p: SvnPolicy, i: nat)
    requires f.Valid() && |u| == 59 && i < 64
    requires u[33..35] == f.svnCpld && u[35..37] == f.svnPch && u[37..39] == f.svnBmc
    ensures SvnBit(u, p, i) <==> Bit(f.Svn(p)[i / 32], i % 32)
  {
    hide Bit;
    Inner(u, SvnOffset(p), f.Svn(p), i / 32);
  }

  lemma KeyBitOf(f: PfrData, u: Mem, pcType: nat, id: nat)
    requires f.Valid() && |u| == 59 && pcType <= 4
    requires u[39..43] == f.cancelPchPfm && u[43..47] == f.cancelPchCapsule && u[47..51] == f.cancelBmcPfm
    requires u[51..55] == f.cancelBmcCapsule && u[55..59] == f.cancelCpldCapsule
    ensures KeyValid(u, pcType, id) <==> id <= 127 && Bit(f.Cancelled(pcType)[id / 32], 31 - id % 32)
  {
    hide Bit;
    if id <= 127 {
      Inner(u, CancelOffset(pcType), f.Cancelled(pcType), id / 32);
    }
  }

  // The meaning of the bits of the status word
  lemma StatusIsReadByMask(f: PfrData)
    requires f.Valid()
    ensures var u, w := f.Words(), f.status;
            && IsPage(u)
            && (Has(u, Locked) <==> w & 1 == 0) && (Has(u, RootKeyDone) <==> w & 2 == 0) && (Has(u, PchDone) <==> w & 4 == 0)
            && (Has(u, BmcDone) <==> w & 8 == 0) && (Has(u, PitIdDone) <==> w & 0x10 == 0) && (Has(u, L1Enabled) <==> w & 0x20 == 0)
            && (Has(u, L2Enabled) <==> w & 0x40 == 0) && (Has(u, HashStored) <==> w & 0x80 == 0)
            && (Has(u, L2Passed) <==> w & 0x100 == 0)
  {
    FieldsInOrder(f);
    hide PfrData.Words;
    BitByMask(f.status);
    hide Bit;
  }

  lemma BitByMask(w: Word)
    ensures (Bit(w, 0) <==> w & 1 != 0) && (Bit(w, 1) <==> w & 2 != 0) && (Bit(w, 2) <==> w & 4 != 0)
    ensures (Bit(w, 3) <==> w & 8 != 0) && (Bit(w, 4) <==> w & 0x10 != 0) && (Bit(w, 5) <==> w & 0x20 != 0)
    ensures (Bit(w, 6) <==> w & 0x40 != 0) && (Bit(w, 7) <==> w & 0x80 != 0) && (Bit(w, 8) <==> w & 0x100 != 0)
  {
    hide *;
    Masks();
    OneBit(w, 0, 1);
    OneBit(w, 1, 2);
    OneBit(w, 2, 4);
    OneBit(w, 3, 8);
    OneBit(w, 4, 0x10);
    OneBit(w, 5, 0x20);
    OneBit(w, 6, 0x40);
    OneBit(w, 7, 0x80);
    OneBit(w, 8, 0x100);
  }

  lemma OneBit(w: Word, k: nat, mask: Word)
    requires k < 32 && mask == Mask(k)
    ensures Bit(w, k) <==> w & mask != 0
  {
    hide Mask;
  }

  lemma Masks()
    ensures Mask(0) == 1 && Mask(1) == 2 && Mask(2) == 4 && Mask(3) == 8 && Mask(4) == 0x10 && Mask(5) == 0x20
    ensures Mask(6) == 0x40 && Mask(7) == 0x80 && Mask(8) == 0x100
  {
    assert Mask(2) == 4;
    assert Mask(4) == 0x10;
    assert Mask(6) == 0x40;
  }
}
