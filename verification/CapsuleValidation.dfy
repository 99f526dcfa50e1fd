/**
 fw/code/inc/capsule_validation.h: which staged payloads are acted upon, and what a payload that is
 no update does to the provisioned data.
 */
module CapsuleValidation {
  import opened NorFlash
  import opened SpiRwUtils
  import opened Bits
  import opened Ufm
  import opened Authentication
  import opened PfmValidation

  // ---------------------------------------------------------------- update intents

  // Bits of an update intent register
  const PCH_ACTIVE: Word := 1
  const PCH_RECOVERY: Word := 2
  const CPLD_ACTIVE: Word := 4
  const BMC_ACTIVE: Word := 8
  const BMC_RECOVERY: Word := 0x10
  const CPLD_RECOVERY: Word := 0x20

  predicate AnyOf(intent: Word, mask: Word) { intent & mask != 0 }

  // does_pc_type_match_update_intent
  predicate TypeMatches(pcType: Word, intent: Word) {
    if AnyOf(pcType, 0x100) then true
    else if AnyOf(intent, BMC_ACTIVE | BMC_RECOVERY) then pcType == 4
    else if AnyOf(intent, PCH_ACTIVE | PCH_RECOVERY) then pcType == 2
    else if AnyOf(intent, CPLD_ACTIVE | CPLD_RECOVERY) then pcType == 0 || AnyOf(pcType, 0x200)
    else false
  }

  // ---------------------------------------------------------------- capsules in a flash

  // The page block compression header of the capsule at a word offset, past both signatures
  function PbcOffset(m: Mem, at: nat): nat
    requires at + 258 <= |m|
  {
    at + 512 + m[at + 257] as nat / 4
  }

  predicate PbcValid(m: Mem, at: nat) {
    && at + 258 <= |m| && PbcOffset(m, at) + 32 <= |m|
    && var pbc := PbcOffset(m, at);
    && m[pbc] == 0x5F50_4243 && m[pbc + 1] == 2 && m[pbc + 2] == 0x1000 && m[pbc + 5] % 8 == 0
  }

  // is_capsule_valid
  predicate CapsuleValid(d: Device, u: Mem, m: Mem, at: nat)
    requires IsPage(u)
  {
    ValidAt(d, u, m, at) && ValidAt(d, u, m, at + 256) && PbcValid(m, at)
  }

  // The SVN byte of the manifest in a capsule
  function PfmSvn(m: Mem, at: nat): nat
    requires at + 513 < |m|
  {
    (m[at + 513] & 0xFF) as nat
  }

  // The SVN word of a CPLD capsule
  function CpldSvn(m: Mem, at: nat): nat
    requires at + 256 < |m|
  {
    m[at + 256] as nat
  }

  // ---------------------------------------------------------------- the decision

  datatype Verdict = Refused | Proceeds | CancelsKey(pcType: nat, id: nat) | Decommissions

  // A firmware capsule for the given policy, whose recovery image has the given SVN
  predicate FirmwareAdmitted(u: Mem, p: SvnPolicy, svn: nat, recovery: bool, recoverySvn: nat)
    requires IsPage(u)
  {
    SvnAdmitted(u, p, svn) && (recovery || recoverySvn == svn)
  }

  // check_capsule_before_update
  function Check(d: Device, u: Mem, m: Mem, at: nat, intent: Word, pchSvn: nat, bmcSvn: nat): Verdict
    requires IsPage(u) && at + 256 <= |m|
  {
    var pcType := m[at + 2];
    if !TypeMatches(pcType, intent) || !ValidAt(d, u, m, at) then Refused
    else
      var s := PayloadAt(m, at);
      if IsCertificate(s) then CancelsKey(KchPcType(s), CertId(d, u, s))
      else if IsDecommission(s) then Decommissions
      else if pcType == 0 then
        if at + 256 < |m| && SvnAdmitted(u, CpldPolicy, CpldSvn(m, at)) then Proceeds else Refused
      else if !ValidAt(d, u, m, at + 256) || !PbcValid(m, at) then Refused
      else if pcType == 2 && FirmwareAdmitted(u, PchPolicy, SvnOf(m, at), AnyOf(intent, PCH_RECOVERY), pchSvn) then Proceeds
      else if pcType == 4 && FirmwareAdmitted(u, BmcPolicy, SvnOf(m, at), AnyOf(intent, BMC_RECOVERY), bmcSvn) then Proceeds
      else Refused
  }

  function SvnOf(m: Mem, at: nat): nat { if at + 513 < |m| then PfmSvn(m, at) else 0 }

  // The key ID in an authentic certificate
  function CertId(d: Device, u: Mem, s: seq<Word>): (id: nat)
    requires IsPage(u) && SignatureValid(d, u, s) && IsCertificate(s)
    ensures id <= 127
  {
    s[256] as nat
  }

  // The page after the decision
  function PageAfter(u: Mem, v: Verdict): (r: Mem)
    requires IsPage(u) && (v.CancelsKey? ==> v.id <= 127)
    ensures IsPage(r)
  {
    match v
    case CancelsKey(pcType, id) => KeyCancelled(u, pcType, id)
    case Decommissions => ErasedPage()
    case _ => u
  }

  lemma VerdictKeyId(d: Device, u: Mem, m: Mem, at: nat, intent: Word, pchSvn: nat, bmcSvn: nat)
    requires IsPage(u) && at + 256 <= |m|
    ensures var v := Check(d, u, m, at, intent, pchSvn, bmcSvn);
            v.CancelsKey? ==> v.id <= 127 && v.pcType <= 4
  {
    if ValidAt(d, u, m, at) {
      KnownType(d, u, PayloadAt(m, at));
    }
    hide SignatureValid, KchPcType, IsCertificate, SvnAdmitted, PbcValid, TypeMatches, HoldsPayload, PayloadAt;
  }

  lemma KnownType(d: Device, u: Mem, s: seq<Word>)
    requires IsPage(u) && SignatureValid(d, u, s)
    ensures HasSignature(s) && KchPcType(s) <= 4
  {
    hide Block1Valid, CertContentValid, LengthAllowed, AllZero, KchPcType, IsCertificate, PcLength;
  }

  // ---------------------------------------------------------------- what an admission promises

  // An admitted firmware capsule carries two authentic signatures, has an SVN between the minimum
  // and 64, and one other than the recovery image's only in a recovery update
  lemma AdmittedFirmware(d: Device, u: Mem, m: Mem, at: nat, intent: Word, pchSvn: nat, bmcSvn: nat)
    requires IsPage(u) && at + 514 <= |m| && Check(d, u, m, at, intent, pchSvn, bmcSvn) == Proceeds && m[at + 2] != 0
    ensures CapsuleValid(d, u, m, at)
    ensures || (m[at + 2] == 2 && UfmSvn(u, PchPolicy) <= PfmSvn(m, at) <= 64
                && (AnyOf(intent, PCH_RECOVERY) || pchSvn == PfmSvn(m, at)))
            || (m[at + 2] == 4 && UfmSvn(u, BmcPolicy) <= PfmSvn(m, at) <= 64
                && (AnyOf(intent, BMC_RECOVERY) || bmcSvn == PfmSvn(m, at)))
  {
    CheckOfUpdate(d, u, m, at, intent, pchSvn, bmcSvn);
    hide *;
    if m[at + 2] == 2 {
      AdmittedSvn(u, PchPolicy, PfmSvn(m, at), m, at);
    } else {
      AdmittedSvn(u, BmcPolicy, PfmSvn(m, at), m, at);
    }
  }

  lemma CheckOfUpdate(d: Device, u: Mem, m: Mem, at: nat, intent: Word, pchSvn: nat, bmcSvn: nat)
    requires IsPage(u) && at + 514 <= |m| && Check(d, u, m, at, intent, pchSvn, bmcSvn) == Proceeds && m[at + 2] != 0
    ensures CapsuleValid(d, u, m, at)
    ensures || (m[at + 2] == 2 && SvnAdmitted(u, PchPolicy, PfmSvn(m, at))
                && (AnyOf(intent, PCH_RECOVERY) || pchSvn == PfmSvn(m, at)))
            || (m[at + 2] == 4 && SvnAdmitted(u, BmcPolicy, PfmSvn(m, at))
                && (AnyOf(intent, BMC_RECOVERY) || bmcSvn == PfmSvn(m, at)))
  {
    hide ValidAt, PbcValid, TypeMatches, SvnAdmitted, PayloadAt, IsCertificate, IsDecommission, CertId, AnyOf, PfmSvn;
  }

  lemma AdmittedSvn(u: Mem, p: SvnPolicy, svn: nat, m: Mem, at: nat)
    requires IsPage(u) && at + 513 < |m| && svn == PfmSvn(m, at) && SvnAdmitted(u, p, svn)
    ensures UfmSvn(u, p) <= svn <= 64
  {
    ByteSmall(m[at + 513]);
    hide UfmSvn;
  }

  lemma ByteSmall(w: Word)
    ensures (w & 0xFF) as nat % 256 == (w & 0xFF) as nat
  {
  }

  // The intent asks for a firmware update
  predicate ForFirmware(intent: Word) { AnyOf(intent, BMC_ACTIVE | BMC_RECOVERY) || AnyOf(intent, PCH_ACTIVE | PCH_RECOVERY) }

  // Only an intent with CPLD bits and no firmware bits lets a payload decommission the platform
  lemma DecommissionNeedsCpldIntent(d: Device, u: Mem, m: Mem, at: nat, intent: Word, pchSvn: nat, bmcSvn: nat)
    requires IsPage(u) && at + 256 <= |m| && Check(d, u, m, at, intent, pchSvn, bmcSvn) == Decommissions
    ensures AnyOf(intent, CPLD_ACTIVE | CPLD_RECOVERY) && !ForFirmware(intent)
  {
    var pcType := m[at + 2];
    if ValidAt(d, u, m, at) {
      AtItsPlace(m, at);
      assert PayloadAt(m, at)[2] == pcType;
      TypeBits(PayloadAt(m, at));
      DecommissionType(pcType, intent);
    }
    hide SignatureValid, KchPcType, SvnAdmitted, PbcValid, TypeMatches, HoldsPayload, PayloadAt, AnyOf, ForFirmware, IsCertificate, IsDecommission;
  }

  lemma DecommissionType(pcType: Word, intent: Word)
    requires TypeMatches(pcType, intent) && pcType & 0x200 != 0 && pcType & 0x100 == 0
    ensures AnyOf(intent, CPLD_ACTIVE | CPLD_RECOVERY) && !ForFirmware(intent)
  {
  }

  // ---------------------------------------------------------------- the decision by the words of the capsule

  // What an update intent asks for; bits of the BMC come before bits of the PCH, and these before CPLD bits
  predicate AsksBmc(intent: Word) { intent & 0x18 != 0 }
  predicate AsksPch(intent: Word) { intent & 0x18 == 0 && intent & 3 != 0 }
  predicate AsksCpld(intent: Word) { intent & 0x18 == 0 && intent & 3 == 0 && intent & 0x24 != 0 }

  // A payload with a signed manifest and a compression header behind it, with an SVN in range that is the one
  // of the recovery image unless a recovery update is asked for
  predicate GoodFirmware(d: Device, u: Mem, m: Mem, at: nat, p: SvnPolicy, recovery: bool, recoverySvn: nat)
    requires IsPage(u) && at + 514 <= |m|
  {
    var svn, pbc := (m[at + 513] & 0xFF) as nat, at + 512 + m[at + 257] as nat / 4;
    && ValidAt(d, u, m, at + 256)
    && pbc + 32 <= |m| && m[pbc] == 0x5F50_4243 && m[pbc + 1] == 2 && m[pbc + 2] == 0x1000 && m[pbc + 5] % 8 == 0
    && UfmSvn(u, p) <= svn <= 64 && (recovery || recoverySvn == svn)
  }

  // What becomes of a staged payload is decided by its signature, its type word, the intent and its SVN: an
  // authentic certificate cancels its key, an authentic decommission capsule erases the data if CPLD bits alone
  // ask for it, a good capsule of the type that is asked for proceeds, and everything else is refused
  lemma VerdictByWords(d: Device, u: Mem, m: Mem, at: nat, intent: Word, pchSvn: nat, bmcSvn: nat)
    requires IsPage(u) && at + 514 <= |m|
    ensures var v, t, authentic := Check(d, u, m, at, intent, pchSvn, bmcSvn), m[at + 2], ValidAt(d, u, m, at);
            var good := || (t == 0 && AsksCpld(intent) && UfmSvn(u, CpldPolicy) <= m[at + 256] as nat % 256 <= 64)
                        || (t == 2 && AsksPch(intent) && GoodFirmware(d, u, m, at, PchPolicy, intent & 2 != 0, pchSvn))
                        || (t == 4 && AsksBmc(intent) && GoodFirmware(d, u, m, at, BmcPolicy, intent & 0x10 != 0, bmcSvn));
            && (v.CancelsKey? <==> authentic && t & 0x100 != 0)
            && (v == Decommissions <==> authentic && t & 0x100 == 0 && t & 0x200 != 0 && AsksCpld(intent))
            && (v == Proceeds <==> authentic && good)
  {
    hide *;
    var t := m[at + 2];
    ChecksInOrder(d, u, m, at, intent, pchSvn, bmcSvn);
    TypesAsked(t, intent);
    RecoveryBits(intent);
    GoodFirmwareIs(d, u, m, at, PchPolicy, intent & 2 != 0, pchSvn);
    GoodFirmwareIs(d, u, m, at, BmcPolicy, intent & 0x10 != 0, bmcSvn);
    AdmittedIs(u, CpldPolicy, m[at + 256] as nat);
  }

  lemma AdmittedIs(u: Mem, p: SvnPolicy, svn: nat)
    requires IsPage(u)
    ensures SvnAdmitted(u, p, svn) <==> UfmSvn(u, p) <= svn % 256 <= 64
  {
    hide UfmSvn;
  }

  lemma RecoveryBits(intent: Word)
    ensures (AnyOf(intent, PCH_RECOVERY) <==> intent & 2 != 0) && (AnyOf(intent, BMC_RECOVERY) <==> intent & 0x10 != 0)
  {
  }

  // The type word and the intent
  lemma TypesAsked(t: Word, intent: Word)
    ensures t & 0x100 != 0 ==> TypeMatches(t, intent)
    ensures t & 0x100 == 0 && t & 0x200 != 0 ==> (TypeMatches(t, intent) <==> AsksCpld(intent))
    ensures t == 0 ==> (TypeMatches(t, intent) <==> AsksCpld(intent)) && t & 0x100 == 0 && t & 0x200 == 0
    ensures t == 2 ==> (TypeMatches(t, intent) <==> AsksPch(intent)) && t & 0x100 == 0 && t & 0x200 == 0
    ensures t == 4 ==> (TypeMatches(t, intent) <==> AsksBmc(intent)) && t & 0x100 == 0 && t & 0x200 == 0
  {
    IntentBits(intent);
    SmallTypes(t);
  }

  lemma IntentBits(intent: Word)
    ensures AnyOf(intent, BMC_ACTIVE | BMC_RECOVERY) <==> intent & 0x18 != 0
    ensures AnyOf(intent, PCH_ACTIVE | PCH_RECOVERY) <==> intent & 3 != 0
    ensures AnyOf(intent, CPLD_ACTIVE | CPLD_RECOVERY) <==> intent & 0x24 != 0
  {
    AnyIs(intent, BMC_ACTIVE | BMC_RECOVERY, 0x18);
    AnyIs(intent, PCH_ACTIVE | PCH_RECOVERY, 3);
    AnyIs(intent, CPLD_ACTIVE | CPLD_RECOVERY, 0x24);
    hide AnyOf;
  }

  lemma AnyIs(intent: Word, mask: Word, value: Word)
    requires mask == value
    ensures AnyOf(intent, mask) <==> intent & value != 0
  {
  }

  lemma SmallTypes(t: Word)
    ensures t & 0x200 != 0 ==> t != 0 && t != 2 && t != 4
    ensures t == 0 || t == 2 || t == 4 ==> t & 0x100 == 0 && t & 0x200 == 0
  {
  }

  lemma ChecksInOrder(d: Device, u: Mem, m: Mem, at: nat, intent: Word, pchSvn: nat, bmcSvn: nat)
    requires IsPage(u) && at + 514 <= |m|
    ensures var v, t := Check(d, u, m, at, intent, pchSvn, bmcSvn), m[at + 2];
            if !TypeMatches(t, intent) || !ValidAt(d, u, m, at) then v == Refused
            else if t & 0x100 != 0 then v.CancelsKey?
            else if t & 0x200 != 0 then v == Decommissions
            else v == if t == 0 then (if SvnAdmitted(u, CpldPolicy, m[at + 256] as nat) then Proceeds else Refused)
                      else if t == 2 then
                        (if GoodFirmwareByParts(d, u, m, at, PchPolicy, AnyOf(intent, PCH_RECOVERY), pchSvn) then Proceeds else Refused)
                      else if t == 4 then
                        (if GoodFirmwareByParts(d, u, m, at, BmcPolicy, AnyOf(intent, BMC_RECOVERY), bmcSvn) then Proceeds else Refused)
                      else Refused
  {
    if ValidAt(d, u, m, at) {
      AtItsPlace(m, at);
      assert PayloadAt(m, at)[2] == m[at + 2];
      TypeBits(PayloadAt(m, at));
    }
    hide SignatureValid, KchPcType, SvnAdmitted, PbcValid, TypeMatches, HoldsPayload, PayloadAt, AnyOf, IsCertificate, IsDecommission, CertId;
  }

  predicate GoodFirmwareByParts(d: Device, u: Mem, m: Mem, at: nat, p: SvnPolicy, recovery: bool, recoverySvn: nat)
    requires IsPage(u)
  {
    ValidAt(d, u, m, at + 256) && PbcValid(m, at) && FirmwareAdmitted(u, p, SvnOf(m, at), recovery, recoverySvn)
  }

  lemma GoodFirmwareIs(d: Device, u: Mem, m: Mem, at: nat, p: SvnPolicy, recovery: bool, recoverySvn: nat)
    requires IsPage(u) && at + 514 <= |m|
    ensures GoodFirmware(d, u, m, at, p, recovery, recoverySvn) <==> GoodFirmwareByParts(d, u, m, at, p, recovery, recoverySvn)
  {
    SvnByte(m, at);
    AdmittedIs(u, p, SvnOf(m, at));
    HeaderIs(m, at);
    hide ValidAt, UfmSvn, SvnOf, SvnAdmitted, PbcValid;
  }

  lemma SvnByte(m: Mem, at: nat)
    requires at + 514 <= |m|
    ensures SvnOf(m, at) == (m[at + 513] & 0xFF) as nat && SvnOf(m, at) % 256 == SvnOf(m, at)
  {
    ByteSmall(m[at + 513]);
  }

  lemma HeaderIs(m: Mem, at: nat)
    requires at + 514 <= |m|
    ensures var pbc := at + 512 + m[at + 257] as nat / 4;
            PbcValid(m, at) <==> pbc + 32 <= |m| && m[pbc] == 0x5F50_4243 && m[pbc + 1] == 2 && m[pbc + 2] == 0x1000 && m[pbc + 5] % 8 == 0
  {
  }

  // ---------------------------------------------------------------- what a certificate does

  // An authentic certificate of the type word t cancels the key that its first word names, for that type, and
  // no other key, whatever the intent; the rest of the page stays
  lemma CertificateCancelsItsKey(d: Device, u: Mem, m: Mem, at: nat, intent: Word, pchSvn: nat, bmcSvn: nat, pcType: nat, id: nat)
    requires IsPage(u) && at + 514 <= |m| && ValidAt(d, u, m, at) && m[at + 2] & 0x100 != 0 && pcType <= 4
    ensures var v := Check(d, u, m, at, intent, pchSvn, bmcSvn);
            && (v.CancelsKey? ==> v.id <= 127)
            && var r := PageAfter(u, v);
            && (KeyValid(r, pcType, id)
                <==> KeyValid(u, pcType, id) && !(pcType == (m[at + 2] & 0xFF) as nat && id == m[at + 256] as nat))
            && forall i: nat | i < 39 :: r[i] == u[i]
  {
    var t, n := (m[at + 2] & 0xFF) as nat, m[at + 256] as nat;
    hide *;
    CertificateVerdict(d, u, m, at, intent, pchSvn, bmcSvn);
    AfterCertificate(u, t, n, pcType, id);
  }

  lemma AfterCertificate(u: Mem, t: nat, n: nat, pcType: nat, id: nat)
    requires IsPage(u) && n <= 127 && t <= 4 && pcType <= 4
    ensures var r := PageAfter(u, CancelsKey(t, n));
            && |r| == 59 && |u| == 59 && IsPage(r) && (KeyValid(r, pcType, id) <==> KeyValid(u, pcType, id) && !(pcType == t && id == n))
            && forall i: nat | i < 39 :: r[i] == u[i]
  {
    CancelOne(u, Cancellation(t, n), pcType, id);
    CancelledElsewhere(u, t, n);
    hide KeyValid, KeyCancelled;
  }

  lemma CancelledElsewhere(u: Mem, pcType: nat, id: nat)
    requires IsPage(u) && id <= 127
    ensures forall i: nat | i < 39 :: KeyCancelled(u, pcType, id)[i] == u[i]
  {
    hide Cleared;
  }

  lemma CertificateVerdict(d: Device, u: Mem, m: Mem, at: nat, intent: Word, pchSvn: nat, bmcSvn: nat)
    requires IsPage(u) && at + 514 <= |m| && ValidAt(d, u, m, at) && m[at + 2] & 0x100 != 0
    ensures m[at + 256] as nat <= 127 && (m[at + 2] & 0xFF) as nat <= 4
    ensures Check(d, u, m, at, intent, pchSvn, bmcSvn) == CancelsKey((m[at + 2] & 0xFF) as nat, m[at + 256] as nat)
  {
    var s := PayloadAt(m, at);
    AtItsPlace(m, at);
    TypeBits(s);
    KnownType(d, u, s);
    assert s[2] == m[at + 2];
    CertificateWord(d, u, m, at);
    TypesAsked(m[at + 2], intent);
    hide SignatureValid, SvnAdmitted, PbcValid, TypeMatches, HoldsPayload, PayloadAt, AnyOf, IsCertificate, IsDecommission;
  }

  lemma CertificateWord(d: Device, u: Mem, m: Mem, at: nat)
    requires IsPage(u) && at + 514 <= |m| && ValidAt(d, u, m, at) && IsCertificate(PayloadAt(m, at))
    ensures |PayloadAt(m, at)| > 256 && PayloadAt(m, at)[256] == m[at + 256] && m[at + 256] as nat <= 127
  {
    AtItsPlace(m, at);
    hide Block0Valid, Block1Valid, AllZero, SignedPayloadSize, IsCertificate;
  }

  // A certificate that was acted upon stops its key: until the page is erased no payload of the type and with
  // the signing key that the certificate names passes, except another certificate
  lemma CertificateStopsKey(d: Device, u: Mem, m: Mem, at: nat, intent: Word, pchSvn: nat, bmcSvn: nat, ops: seq<Op>, s: seq<Word>)
    requires IsPage(u) && at + 514 <= |m| && ValidAt(d, u, m, at) && m[at + 2] & 0x100 != 0
    requires OnlyPrograms(ops) && HasSignature(s) && s[2] & 0x100 == 0 && s[2] & 0xFF == m[at + 2] & 0xFF && s[72] == m[at + 256]
    ensures var v := Check(d, u, m, at, intent, pchSvn, bmcSvn);
            (v.CancelsKey? ==> v.id <= 127) && !SignatureValid(d, Run(PageAfter(u, v), ops), s)
  {
    hide *;
    CertificateVerdict(d, u, m, at, intent, pchSvn, bmcSvn);
    TypeBits(s);
    SameKey(s, m, at);
    var t, id := (m[at + 2] & 0xFF) as nat, m[at + 256] as nat;
    AfterCertificate(u, t, id, t, id);
    CancelledPage(u, t, id);
    CancelledKeyNeverPasses(d, u, t, id, ops, s);
  }

  lemma SameKey(s: seq<Word>, m: Mem, at: nat)
    requires HasSignature(s) && at + 257 <= |m| && s[2] & 0xFF == m[at + 2] & 0xFF && s[72] == m[at + 256]
    ensures KchPcType(s) == (m[at + 2] & 0xFF) as nat && CskId(s) == m[at + 256] as nat
  {
  }

  lemma CancelledPage(u: Mem, t: nat, id: nat)
    requires IsPage(u) && id <= 127
    ensures PageAfter(u, CancelsKey(t, id)) == KeyCancelled(u, t, id)
  {
    hide KeyCancelled;
  }

  // ---------------------------------------------------------------- in place

  // A decommission capsule also makes the device reconfigure, which the caller sees as the verdict.
  // attempts counts the refused updates from this flash.
  method CheckCapsuleBeforeUpdate(f: SpiFlash, page: array<Word>, d: Device, at: nat, intent: Word, pchSvn: nat, bmcSvn: nat, attempts: nat)
    returns (v: Verdict, failed: nat)
    requires page.Length == 59 && at + 514 <= f.mem.Length && page != f.mem
    modifies page
    ensures v == Check(d, old(page[..]), f.mem[..], at, intent, pchSvn, bmcSvn)
    ensures (v.CancelsKey? ==> v.id <= 127) && page[..] == PageAfter(old(page[..]), v)
    ensures failed == attempts + if v.Refused? then 1 else 0
  {
    hide SignatureValid, UfmSvn, KchPcType, TypeMatches, PbcValid, IsCertificate, IsDecommission, SignedPayloadSize, KeyCancelled;
    failed := attempts;
    var pcType := f.mem[at + 2];
    if TypeMatches(pcType, intent) {
      var ok := IsSignatureValidAt(f, d, page[..], at);
      if ok {
        ghost var s := PayloadAt(f.mem[..], at);
        assert pcType == s[2];
        if pcType & 0x100 != 0 {
          v := ActOnCertificate(f, page, d, at, s);
          return;
        } else if pcType & 0x200 != 0 {
          v := Decommissions;
          UfmErasePage(page);
          assert IsDecommission(s) && !IsCertificate(s) by { TypeBits(s); }
          return;
        }
        assert !IsDecommission(s) && !IsCertificate(s) by { TypeBits(s); }
        v := CheckSvn(f, page, d, at, intent, pchSvn, bmcSvn);
        if v == Proceeds {
          return;
        }
      }
    }
    v := Refused;
    failed := attempts + 1;
  }

  lemma TypeBits(s: seq<Word>)
    requires HasSignature(s)
    ensures (IsCertificate(s) <==> s[2] & 0x100 != 0) && (IsDecommission(s) <==> s[2] & 0x200 != 0)
  {
  }

  method ActOnCertificate(f: SpiFlash, page: array<Word>, d: Device, at: nat, ghost s: seq<Word>) returns (v: Verdict)
    requires page.Length == 59 && at + 514 <= f.mem.Length && page != f.mem
    requires ValidAt(d, page[..], f.mem[..], at) && s == PayloadAt(f.mem[..], at) && s[2] & 0x100 != 0
    modifies page
    ensures IsCertificate(s) && v == CancelsKey(KchPcType(s), CertId(d, old(page[..]), s))
    ensures page[..] == KeyCancelled(old(page[..]), v.pcType, v.id)
  {
    hide SignedPayloadSize, Block0Valid, Block1Valid, AllZero, KeyCancelled;
    assert f.mem[at + 2] == s[2] && f.mem[at + 256] == s[256];
    var pcType, id := (f.mem[at + 2] & 0xFF) as nat, f.mem[at + 256] as nat;
    v := CancelsKey(pcType, id);
    CancelKey(page, pcType, id);
  }

  // The checks on the SVN of an update
  method CheckSvn(f: SpiFlash, page: array<Word>, d: Device, at: nat, intent: Word, pchSvn: nat, bmcSvn: nat) returns (v: Verdict)
    requires page.Length == 59 && at + 514 <= f.mem.Length
    ensures var u, m, pcType := page[..], f.mem[..], f.mem[at + 2];
            v == if pcType == 0 then (if SvnAdmitted(u, CpldPolicy, CpldSvn(m, at)) then Proceeds else Refused)
                 else if !ValidAt(d, u, m, at + 256) || !PbcValid(m, at) then Refused
                 else if pcType == 2 && FirmwareAdmitted(u, PchPolicy, SvnOf(m, at), AnyOf(intent, PCH_RECOVERY), pchSvn) then Proceeds
                 else if pcType == 4 && FirmwareAdmitted(u, BmcPolicy, SvnOf(m, at), AnyOf(intent, BMC_RECOVERY), bmcSvn) then Proceeds
                 else Refused
  {
    hide ValidAt, PbcValid, SvnAdmitted, AnyOf;
    var pcType := f.mem[at + 2];
    if pcType == 0 {
      var valid := IsSvnValid(page, CpldPolicy, f.mem[at + 256] as nat);
      return if valid then Proceeds else Refused;
    }
    var pfm := IsSignatureValidAt(f, d, page[..], at + 256);
    if !pfm {
      return Refused;
    }
    var pbc := IsPbcValid(f, at);
    if !pbc {
      return Refused;
    }
    v := CheckFirmwareSvn(f, page, at, intent, pchSvn, bmcSvn);
  }

  method CheckFirmwareSvn(f: SpiFlash, page: array<Word>, at: nat, intent: Word, pchSvn: nat, bmcSvn: nat) returns (v: Verdict)
    requires page.Length == 59 && at + 514 <= f.mem.Length
    ensures var u, m, pcType := page[..], f.mem[..], f.mem[at + 2];
            v == if pcType == 2 && FirmwareAdmitted(u, PchPolicy, SvnOf(m, at), AnyOf(intent, PCH_RECOVERY), pchSvn) then Proceeds
                 else if pcType == 4 && FirmwareAdmitted(u, BmcPolicy, SvnOf(m, at), AnyOf(intent, BMC_RECOVERY), bmcSvn) then Proceeds
                 else Refused
  {
    hide SvnAdmitted, AnyOf, PfmSvn;
    var pcType, svn := f.mem[at + 2], PfmSvn(f.mem[..], at);
    if pcType == 2 {
      var valid := IsSvnValid(page, PchPolicy, svn);
      if valid && (AnyOf(intent, PCH_RECOVERY) || pchSvn == svn) {
        return Proceeds;
      }
    } else if pcType == 4 {
      var valid := IsSvnValid(page, BmcPolicy, svn);
      if valid && (AnyOf(intent, BMC_RECOVERY) || bmcSvn == svn) {
        return Proceeds;
      }
    }
    return Refused;
  }

  method IsSvnValid(page: array<Word>, p: SvnPolicy, svn: nat) returns (ok: bool)
    requires page.Length == 59
    ensures ok == SvnAdmitted(page[..], p, svn)
  {
    hide UfmSvn;
    var least := GetUfmSvn(page, p);
    var byte := svn % 256;
    return byte >= least && byte <= 64;
  }

  method IsPbcValid(f: SpiFlash, at: nat) returns (ok: bool)
    requires at + 258 <= f.mem.Length
    ensures ok == PbcValid(f.mem[..], at)
  {
    var pbc := at + 512 + f.mem[at + 257] as nat / 4;
    if pbc + 32 > f.mem.Length {
      return false;
    }
    return f.mem[pbc] == 0x5F50_4243 && f.mem[pbc + 1] == 2 && f.mem[pbc + 2] == 0x1000 && f.mem[pbc + 5] % 8 == 0;
  }
}
