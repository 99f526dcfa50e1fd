/**
 Signed payloads (fw/code/inc/keychain.h, authentication.h): a 1024-byte signature holding block 0
 and block 1, followed by the protected content. A payload is the sequence of its words; SHA-256
 and ECDSA are functions nothing is known about.
 */
module Authentication {
  import opened NorFlash
  import opened SpiRwUtils
  import opened Sequences
  import opened Ufm
  import opened Bits

  // The crypto block, and the size of a CPLD image on this device
  datatype Device = Device(
    sha: seq<Word> -> seq<Word>,
    ecdsa: (seq<Word>, seq<Word>, seq<Word>, seq<Word>, seq<Word>) -> bool,
    cpldImageWords: nat)

  // ---------------------------------------------------------------- fields of a signature

  predicate HasSignature(s: seq<Word>) { |s| >= 256 }

  function PcLength(s: seq<Word>): nat
    requires HasSignature(s)
  {
    s[1] as nat
  }

  // get_kch_pc_type
  function KchPcType(s: seq<Word>): nat
    requires HasSignature(s)
  {
    (s[2] & 0xFF) as nat
  }

  predicate IsCertificate(s: seq<Word>)
    requires HasSignature(s)
  {
    s[2] & 0x100 != 0
  }

  predicate IsDecommission(s: seq<Word>)
    requires HasSignature(s)
  {
    s[2] & 0x200 != 0
  }

  function CskId(s: seq<Word>): nat
    requires HasSignature(s)
  {
    s[72] as nat
  }

  predicate AllZero(s: seq<Word>) { forall w | w in s :: w == 0 }

  // ---------------------------------------------------------------- what makes a payload authentic

  // The longest protected content of each type
  predicate LengthAllowed(d: Device, s: seq<Word>)
    requires HasSignature(s)
  {
    if IsCertificate(s) || IsDecommission(s) then PcLength(s) == 128
    else match KchPcType(s)
         case 0 => PcLength(s) == 128 + 4 * d.cpldImageWords
         case 1 => PcLength(s) <= 0x100_0000
         case 2 => PcLength(s) <= 0x100_0000
         case 3 => PcLength(s) <= 0x200_0000
         case 4 => PcLength(s) <= 0x200_0000
         case _ => false
  }

  predicate Block0Valid(d: Device, s: seq<Word>)
    requires HasSignature(s)
  {
    && s[0] == 0xB6EA_FD19
    && PcLength(s) >= 128 && PcLength(s) % 128 == 0
    && KchPcType(s) <= 4 && LengthAllowed(d, s)
    && AllZero(s[24..32])
    && |s| >= 256 + PcLength(s) / 4
    && d.sha(s[256..256 + PcLength(s) / 4]) == s[4..12]
  }

  // The 32 bytes of a coordinate, last byte first
  function Reversed(x: seq<Word>): (r: seq<bv8>)
    requires |x| == 8
    ensures |r| == 32
  {
    seq(32, (i: nat) requires i < 32 => ByteAt(x, 31 - i))
  }

  predicate RootEntryValid(d: Device, u: Mem, s: seq<Word>)
    requires HasSignature(s) && IsPage(u)
  {
    && s[36] == 0xA757_A046
    && s[37] == 0xC7B8_8C74
    && s[38] == 0xFFFF_FFFF
    && s[39] == 0xFFFF_FFFF
    && d.sha(WordsOf(Reversed(s[40..48]) + Reversed(s[52..60]))) == u[1..9]
  }

  // get_required_perm
  function RequiredPerm(pcType: nat): Word {
    match pcType case 0 => 0x10 case 1 => 1 case 2 => 2 case 3 => 4 case 4 => 8 case _ => 0
  }

  predicate CskEntryValid(d: Device, u: Mem, s: seq<Word>)
    requires HasSignature(s) && IsPage(u)
  {
    && s[69] == 0x1471_1C2F
    && s[70] == s[37]
    && s[71] & RequiredPerm(KchPcType(s)) != 0
    && KeyValid(u, KchPcType(s), CskId(s))
    && AllZero(s[97..102])
    && d.ecdsa(s[40..48], s[52..60], s[103..111], s[115..123], s[70..102])
  }

  // The block 0 entry follows the CSK entry, or the root entry in a certificate
  predicate B0EntryValid(d: Device, x: seq<Word>, y: seq<Word>, s: seq<Word>, entry: nat)
    requires HasSignature(s) && entry + 26 <= 256
  {
    s[entry] == 0x1536_4367 && d.ecdsa(x, y, s[entry + 2..entry + 10], s[entry + 14..entry + 22], s[..32])
  }

  predicate Block1Valid(d: Device, u: Mem, s: seq<Word>)
    requires HasSignature(s) && IsPage(u)
  {
    && s[32] == 0xF27F_28D7
    && RootEntryValid(d, u, s)
    && if IsCertificate(s) then B0EntryValid(d, s[40..48], s[52..60], s, 69)
       else CskEntryValid(d, u, s) && B0EntryValid(d, s[73..81], s[85..93], s, 127)
  }

  // The content of a key cancellation certificate: a key ID and zeros
  predicate CertContentValid(s: seq<Word>) {
    |s| >= 288 && AllZero(s[257..288]) && s[256] as nat <= 127
  }

  // is_signature_valid of the payload s when the provisioned data are u
  predicate SignatureValid(d: Device, u: Mem, s: seq<Word>)
    requires IsPage(u)
  {
    && HasSignature(s)
    && (IsCertificate(s) ==> CertContentValid(s))
    && Block1Valid(d, u, s)
    && Block0Valid(d, s)
  }

  // ---------------------------------------------------------------- the checks as the code makes them

  method IsZero(s: seq<Word>) returns (ok: bool)
    ensures ok == AllZero(s)
  {
    for i := 0 to |s|
      invariant forall k | 0 <= k < i :: s[k] == 0
    {
      if s[i] != 0 {
        assert s[i] in s;
        return false;
      }
    }
    return true;
  }

  // The checks of is_block0_valid on length and type
  method IsLengthValid(d: Device, s: seq<Word>) returns (ok: bool)
    requires HasSignature(s)
    ensures ok == (PcLength(s) >= 128 && PcLength(s) % 128 == 0 && KchPcType(s) <= 4 && LengthAllowed(d, s))
  {
    hide IsCertificate, IsDecommission, KchPcType, PcLength;
    var length := PcLength(s);
    if length < 128 || length % 128 != 0 {
      return false;
    }
    var pcType := KchPcType(s);
    if pcType > 4 {
      return false;
    }
    if IsCertificate(s) || IsDecommission(s) {
      if length != 128 {
        return false;
      }
    } else if pcType == 0 {
      if length != 128 + 4 * d.cpldImageWords {
        return false;
      }
    } else if pcType == 1 || pcType == 2 {
      if length > 0x100_0000 {
        return false;
      }
    } else if pcType == 3 || pcType == 4 {
      if length > 0x200_0000 {
        return false;
      }
    }
    return true;
  }

  method IsBlock0Valid(d: Device, s: seq<Word>) returns (ok: bool)
    requires HasSignature(s)
    ensures ok == Block0Valid(d, s)
  {
    hide LengthAllowed, KchPcType, AllZero, PcLength;
    if s[0] != 0xB6EA_FD19 {
      return false;
    }
    var lengthValid := IsLengthValid(d, s);
    if !lengthValid {
      return false;
    }
    var reserved := IsZero(s[24..32]);
    if !reserved {
      return false;
    }
    return |s| >= 256 + PcLength(s) / 4 && d.sha(s[256..256 + PcLength(s) / 4]) == s[4..12];
  }

  method IsRootEntryValid(d: Device, u: Mem, s: seq<Word>) returns (ok: bool)
    requires HasSignature(s) && IsPage(u)
    ensures ok == RootEntryValid(d, u, s)
  {
    hide WordsOf;
    if s[36] != 0xA757_A046 {
      return false;
    }
    if s[37] != 0xC7B8_8C74 {
      return false;
    }
    if s[38] != 0xFFFF_FFFF {
      return false;
    }
    if s[39] != 0xFFFF_FFFF {
      return false;
    }
    var shaData := ReversedKey(s[40..48], s[52..60]);
    return d.sha(WordsOf(shaData[..])) == u[1..9];
  }

  // The loop of is_root_entry_valid that fills the hashed buffer from both coordinates at once
  method ReversedKey(x: seq<Word>, y: seq<Word>) returns (shaData: array<bv8>)
    requires |x| == 8 && |y| == 8
    ensures fresh(shaData) && shaData[..] == Reversed(x) + Reversed(y)
  {
    hide ByteAt;
    shaData := new bv8[64];
    for i := 0 to 32
      invariant forall k | 0 <= k < i :: shaData[k] == ByteAt(x, 31 - k)
      invariant forall k | 32 <= k < 32 + i :: shaData[k] == ByteAt(y, 63 - k)
    {
      shaData[i] := ByteAt(x, 31 - i);
      shaData[i + 32] := ByteAt(y, 31 - i);
    }
  }

  method IsCskEntryValid(d: Device, u: Mem, s: seq<Word>) returns (ok: bool)
    requires HasSignature(s) && IsPage(u)
    ensures ok == CskEntryValid(d, u, s)
  {
    hide KchPcType, KeyValid, CskId, AllZero, RequiredPerm;
    if s[69] != 0x1471_1C2F {
      return false;
    }
    if s[70] != s[37] {
      return false;
    }
    if s[71] & RequiredPerm(KchPcType(s)) == 0 {
      return false;
    }
    if !KeyValid(u, KchPcType(s), CskId(s)) {
      return false;
    }
    var reserved := IsZero(s[97..102]);
    if !reserved {
      return false;
    }
    return d.ecdsa(s[40..48], s[52..60], s[103..111], s[115..123], s[70..102]);
  }

  method IsBlock1Valid(d: Device, u: Mem, s: seq<Word>) returns (ok: bool)
    requires HasSignature(s) && IsPage(u)
    ensures ok == Block1Valid(d, u, s)
  {
    hide RootEntryValid, CskEntryValid, B0EntryValid, IsCertificate;
    if s[32] != 0xF27F_28D7 {
      return false;
    }
    var root := IsRootEntryValid(d, u, s);
    if !root {
      return false;
    }
    if IsCertificate(s) {
      return B0EntryValid(d, s[40..48], s[52..60], s, 69);
    }
    var csk := IsCskEntryValid(d, u, s);
    if !csk {
      return false;
    }
    return B0EntryValid(d, s[73..81], s[85..93], s, 127);
  }

  method IsKeyCanCertValid(s: seq<Word>) returns (ok: bool)
    ensures ok == CertContentValid(s)
  {
    if |s| < 288 {
      return false;
    }
    var reserved := IsZero(s[257..288]);
    if !reserved {
      return false;
    }
    return s[256] as nat <= 127;
  }

  method IsSignatureValid(d: Device, u: Mem, s: seq<Word>) returns (ok: bool)
    requires IsPage(u)
    ensures ok == SignatureValid(d, u, s)
  {
    hide CertContentValid, Block1Valid, Block0Valid, IsCertificate;
    if |s| < 256 {
      return false;
    }
    if IsCertificate(s) {
      var content := IsKeyCanCertValid(s);
      if !content {
        return false;
      }
    }
    var block1 := IsBlock1Valid(d, u, s);
    if block1 {
      ok := IsBlock0Valid(d, s);
    } else {
      ok := false;
    }
  }

  // ---------------------------------------------------------------- what validity depends on

  // The provisioned page matters through the root key hash and one cancellation bit only
  lemma DependsOnRootAndKey(d: Device, u: Mem, v: Mem, s: seq<Word>)
    requires IsPage(u) && IsPage(v) && u[1..9] == v[1..9]
    requires HasSignature(s) && (KeyValid(u, KchPcType(s), CskId(s)) <==> KeyValid(v, KchPcType(s), CskId(s)))
    ensures SignatureValid(d, u, s) <==> SignatureValid(d, v, s)
  {
    hide Block0Valid, CertContentValid, KeyValid, KchPcType, CskId, B0EntryValid, AllZero, WordsOf, Reversed;
  }

  // Bumping a minimum SVN changes no verdict
  lemma SvnWritesKeepValidity(d: Device, u: Mem, p: SvnPolicy, svn: nat, s: seq<Word>)
    requires IsPage(u)
    ensures SignatureValid(d, u, s) <==> SignatureValid(d, SvnWritten(u, p, svn), s)
  {
    var v := SvnWritten(u, p, svn);
    SvnWriteTouchesField(u, p, svn);
    if HasSignature(s) {
      KeyElsewhere(u, v, p, KchPcType(s), CskId(s));
      assert u[1..9] == v[1..9];
      DependsOnRootAndKey(d, u, v, s);
    }
    hide *;
  }

  lemma KeyElsewhere(u: Mem, v: Mem, p: SvnPolicy, pcType: nat, id: nat)
    requires IsPage(u) && IsPage(v)
    requires forall i: nat | i < 59 && i != SvnOffset(p) && i != SvnOffset(p) + 1 :: v[i] == u[i]
    ensures KeyValid(u, pcType, id) <==> KeyValid(v, pcType, id)
  {
    hide Bit;
  }

  // Cancelled keys stay cancelled: until the page is erased, no payload of that type that is not
  // itself a certificate passes with a cancelled CSK ID, whatever is written to the page meanwhile
  lemma CancelledKeyNeverPasses(d: Device, u: Mem, pcType: nat, id: nat, ops: seq<Op>, s: seq<Word>)
    requires IsPage(u) && id <= 127 && pcType <= 4 && OnlyPrograms(ops)
    requires HasSignature(s) && !IsCertificate(s) && KchPcType(s) == pcType && CskId(s) == id
    ensures !SignatureValid(d, Run(KeyCancelled(u, pcType, id), ops), s)
  {
    var c := KeyCancelled(u, pcType, id);
    CancelOne(u, Cancellation(pcType, id), pcType, id);
    BetweenErases(c, ops, CpldPolicy, pcType, id);
    hide KeyValid, KeyCancelled, Run, Block0Valid, RootEntryValid, B0EntryValid, KchPcType, CskId, IsCertificate, AllZero;
  }

  // ---------------------------------------------------------------- payloads in a flash

  // The signed payload at a word offset, as far as its own length word says
  predicate HoldsPayload(m: Mem, at: nat) {
    at + 256 <= |m| && at + SignedPayloadSize(m, at) / 4 <= |m|
  }

  function PayloadAt(m: Mem, at: nat): (s: seq<Word>)
    requires HoldsPayload(m, at)
    ensures HasSignature(s)
  {
    m[at..at + SignedPayloadSize(m, at) / 4]
  }

  // is_signature_valid at an address; a payload that runs past the end of the flash is rejected
  predicate ValidAt(d: Device, u: Mem, m: Mem, at: nat)
    requires IsPage(u)
  {
    HoldsPayload(m, at) && SignatureValid(d, u, PayloadAt(m, at))
  }

  method IsSignatureValidAt(f: SpiFlash, d: Device, u: Mem, at: nat) returns (ok: bool)
    requires IsPage(u)
    ensures ok == ValidAt(d, u, f.mem[..], at)
  {
    hide SignatureValid, SignedPayloadSize;
    if at + 256 > f.mem.Length {
      return false;
    }
    var n := GetSignedPayloadSize(f, at);
    if at + n / 4 > f.mem.Length {
      return false;
    }
    assert f.mem[..][at..at + n / 4] == f.mem[at..at + n / 4];
    ok := IsSignatureValid(d, u, f.mem[at..at + n / 4]);
  }

  lemma SamePayload(m: Mem, at: nat, other: Mem, to: nat)
    requires HoldsPayload(m, at)
    requires to + SignedPayloadSize(m, at) / 4 <= |other|
    requires other[to..to + SignedPayloadSize(m, at) / 4] == PayloadAt(m, at)
    ensures HoldsPayload(other, to) && PayloadAt(other, to) == PayloadAt(m, at)
  {
    var n := SignedPayloadSize(m, at) / 4;
    assert other[to + 1] == other[to..to + n][1] == m[at..at + n][1] == m[at + 1];
  }

  lemma PayloadLength(m: Mem, at: nat)
    requires HoldsPayload(m, at)
    ensures SignedPayloadSize(m, at) == 1024 + PcLength(PayloadAt(m, at))
    ensures |PayloadAt(m, at)| == SignedPayloadSize(m, at) / 4
  {
  }

  lemma AcceptedLength(d: Device, u: Mem, s: seq<Word>)
    requires IsPage(u) && SignatureValid(d, u, s)
    ensures HasSignature(s) && PcLength(s) % 128 == 0 && PcLength(s) >= 128
  {
    hide Block1Valid, CertContentValid, LengthAllowed, AllZero, KchPcType, IsCertificate, PcLength;
  }

  lemma AuthenticLength(d: Device, u: Mem, m: Mem, at: nat)
    requires IsPage(u) && ValidAt(d, u, m, at)
    ensures SignedPayloadSize(m, at) % 128 == 0 && SignedPayloadSize(m, at) >= 1152
  {
    hide SignatureValid, PayloadAt, PcLength, SignedPayloadSize, HasSignature;
    PayloadLength(m, at);
    AcceptedLength(d, u, PayloadAt(m, at));
  }

  // memcpy_signed_payload of an authentic payload: the destination holds the same payload and is
  // authentic, the source is as before, and nothing outside the destination's 4KB pages changes
  lemma CopyKeepsValidity(d: Device, u: Mem, m: Mem, page: nat, src: nat)
    requires IsPage(u) && ValidAt(d, u, m, src)
    requires MemcpyFits(|m|, page, src, SignedPayloadSize(m, src))
    ensures var n := SignedPayloadSize(m, src);
            var r := Run(m, MemcpyTrace(page, n, PayloadAt(m, src)));
            && HoldsPayload(r, 1024 * page) && PayloadAt(r, 1024 * page) == PayloadAt(m, src)
            && HoldsPayload(r, src) && PayloadAt(r, src) == PayloadAt(m, src)
            && ValidAt(d, u, r, 1024 * page) && ValidAt(d, u, r, src)
            && SameOutside(r, m, page, page + PagesUpTo(n))
  {
    PayloadToCopy(d, u, m, page, src);
    hide *;
    var n, data := SignedPayloadSize(m, src), PayloadAt(m, src);
    CopyIsExact(m, page, page + PagesUpTo(n), src, n, data);
    var r := Run(m, MemcpyTrace(page, n, data));
    SameVerdict(d, u, m, src, r, 1024 * page);
    SameVerdict(d, u, m, src, r, src);
  }

  lemma SameVerdict(d: Device, u: Mem, m: Mem, at: nat, other: Mem, to: nat)
    requires IsPage(u) && HoldsPayload(m, at) && ValidAt(d, u, m, at)
    requires WordsAt(other, to, PayloadAt(m, at))
    ensures HoldsPayload(other, to) && PayloadAt(other, to) == PayloadAt(m, at) && ValidAt(d, u, other, to)
  {
    AtItsPlace(m, at);
    hide SignatureValid;
    SamePayload(m, at, other, to);
  }

  lemma PayloadToCopy(d: Device, u: Mem, m: Mem, page: nat, src: nat)
    requires IsPage(u) && ValidAt(d, u, m, src)
    requires MemcpyFits(|m|, page, src, SignedPayloadSize(m, src))
    ensures HoldsPayload(m, src)
    ensures var n := SignedPayloadSize(m, src); CanCopy(m, page, page + PagesUpTo(n), src, n, PayloadAt(m, src))
  {
    var n := SignedPayloadSize(m, src);
    AuthenticLength(d, u, m, src);
    AtItsPlace(m, src);
    MemcpyFitsInWords(|m|, page, src, n);
    InWords(n, n / 4);
    hide PagesUpTo, SignatureValid, PayloadAt, SignedPayloadSize;
  }

  lemma AtItsPlace(m: Mem, at: nat)
    requires HoldsPayload(m, at)
    ensures var n := SignedPayloadSize(m, at) / 4;
            |PayloadAt(m, at)| == n && at + n <= |m| && PayloadAt(m, at) == m[at..at + n]
  {
  }
}
