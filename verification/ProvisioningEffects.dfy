/**
 What provisioning comes to for the rest of the firmware: the root key that signatures are checked against,
 the addresses of the regions of both flashes, the minimum SVNs a lock leaves, and the protect-in-transit
 checks that commands switch on. Commands are told by their numbers (fw/code/inc/mailbox_enums.h).
 */
module ProvisioningEffects {
  import opened NorFlash
  import opened Bits
  import opened Ufm
  import opened Authentication
  import opened FlashValidation
  import opened Provisioning

  // ---------------------------------------------------------------- what stays until an erase

  // This event of a run erases the page
  predicate ErasesPage(es: seq<Event>, k: nat)
    requires ValidRun(es) && k < |es|
  {
    assert ValidRun(es[..k]);
    es[k].Decommission? || (es[k].Command? && es[k].cmd == 0 && !Has(PageAfter(es[..k]), Locked))
  }

  predicate KeptFrom(es: seq<Event>, n: nat)
    requires ValidRun(es)
  {
    forall k: nat | n <= k < |es| :: !ErasesPage(es, k)
  }

  lemma Shorter(es: seq<Event>, n: nat)
    requires ValidRun(es) && es != [] && n < |es|
    ensures var before := es[..|es| - 1];
            && ValidRun(before) && es[|es| - 1].Valid() && PageAfter(es) == StepPage(PageAfter(before), es[|es| - 1])
            && (KeptFrom(es, n) ==> KeptFrom(before, n) && !ErasesPage(es, |es| - 1))
  {
    var before := es[..|es| - 1];
    assert es[|es| - 1] in es;
    forall k: nat | n <= k < |before| ensures ErasesPage(es, k) <==> ErasesPage(before, k) {
      assert es[..k] == before[..k];
      hide Has, PageAfter;
    }
    hide ErasesPage, StepPage;
  }

  // The n-th event of a run is a command that reaches an unlocked page, and nothing erases the page after it
  predicate Obeyed(es: seq<Event>, n: nat, cmd: nat, bytes: seq<bv8>)
    requires ValidRun(es)
  {
    && n < |es| && es[n].Command? && es[n].cmd == cmd && es[n].bytes == bytes && KeptFrom(es, n)
    && (assert ValidRun(es[..n]); !Has(PageAfter(es[..n]), Locked))
  }

  lemma ObeyedParts(es: seq<Event>, n: nat, cmd: nat, bytes: seq<bv8>)
    requires ValidRun(es) && Obeyed(es, n, cmd, bytes)
    ensures n < |es| && es[n].Command? && es[n].cmd == cmd && es[n].bytes == bytes && KeptFrom(es, n) && ValidRun(es[..n]) && es[n].Valid()
    ensures !Has(PageAfter(es[..n]), Locked)
  {
    assert es[n] in es;
    hide Has, KeptFrom, PageAfter;
  }

  lemma StillObeyed(es: seq<Event>, n: nat, cmd: nat, bytes: seq<bv8>)
    requires ValidRun(es) && Obeyed(es, n, cmd, bytes) && n < |es| - 1
    ensures ValidRun(es[..|es| - 1]) && Obeyed(es[..|es| - 1], n, cmd, bytes) && es[..|es| - 1][..n] == es[..n]
  {
    Shorter(es, n);
    assert es[..|es| - 1][..n] == es[..n];
    hide Has, KeptFrom, PageAfter;
  }

  // A field filled by a command keeps its content until an erase
  lemma {:induction false} FieldSticks(es: seq<Event>, n: nat, cmd: nat, bytes: seq<bv8>, fd: Field, start: Mem)
    requires ValidRun(es) && ByCommand(fd) && Obeyed(es, n, cmd, bytes) && Written(cmd) == Some(fd)
    requires |bytes| % 4 == 0 && |bytes| / 4 == fd.Words()
    requires ValidRun(es[..n]) && start == PageAfter(es[..n]) && !Has(start, fd.Done())
    ensures var u := PageAfter(es); Has(u, fd.Done()) && Content(u, fd) == WordsOf(bytes)
    decreases |es|
  {
    hide *;
    ObeyedParts(es, n, cmd, bytes);
    Shorter(es, n);
    var before, e := es[..|es| - 1], es[|es| - 1];
    RunKeepsProvisioning(before, fd);
    EventStep(PageAfter(before), e, fd);
    LastEvent(es, n);
    if n < |before| {
      StillObeyed(es, n, cmd, bytes);
      FieldSticks(before, n, cmd, bytes, fd, start);
      StepKeepsField(PageAfter(before), e, fd);
    } else {
      assert before == es[..n];
      StepFillsField(start, e, fd, bytes);
    }
  }

  lemma LastEvent(es: seq<Event>, n: nat)
    requires ValidRun(es) && n < |es| && KeptFrom(es, n)
    ensures ValidRun(es[..|es| - 1])
    ensures var e := es[|es| - 1]; !(e.Decommission? || (e.Command? && e.cmd == 0 && !Has(PageAfter(es[..|es| - 1]), Locked)))
  {
    assert !ErasesPage(es, |es| - 1);
    hide Has, PageAfter;
  }

  lemma StepKeepsField(u: Mem, e: Event, fd: Field)
    requires IsPage(u) && e.Valid() && FieldStep(u, e, fd) && Has(u, fd.Done())
    requires !(e.Decommission? || (e.Command? && e.cmd == 0 && !Has(u, Locked)))
    ensures Has(StepPage(u, e), fd.Done()) && Content(StepPage(u, e), fd) == Content(u, fd)
  {
    hide Has, StepPage, Content;
  }

  lemma StepFillsField(u: Mem, e: Event, fd: Field, bytes: seq<bv8>)
    requires IsPage(u) && e.Valid() && FieldStep(u, e, fd) && !Has(u, fd.Done()) && !Has(u, Locked)
    requires e.Command? && Written(e.cmd) == Some(fd) && e.bytes == bytes && |bytes| % 4 == 0 && |bytes| / 4 == fd.Words()
    ensures Has(StepPage(u, e), fd.Done()) && Content(StepPage(u, e), fd) == WordsOf(bytes)
  {
    hide Has, StepPage, Content, WordsOf;
  }

  // ---------------------------------------------------------------- the root key

  // The words of a root entry that do not depend on the device, and the hash of the key in it
  predicate RootConstants(s: seq<Word>)
    requires HasSignature(s)
  {
    s[36] == 0xA757_A046 && s[37] == 0xC7B8_8C74 && s[38] == 0xFFFF_FFFF && s[39] == 0xFFFF_FFFF
  }

  function RootHash(d: Device, s: seq<Word>): seq<Word>
    requires HasSignature(s)
  {
    d.sha(WordsOf(Reversed(s[40..48]) + Reversed(s[52..60])))
  }

  lemma RootByContent(d: Device, u: Mem, s: seq<Word>)
    requires IsPage(u) && HasSignature(s)
    ensures RootEntryValid(d, u, s) <==> RootConstants(s) && RootHash(d, s) == Content(u, RootKey)
  {
    hide WordsOf, Reversed;
  }

  // After any run, signatures are checked against the first root key hash that was accepted
  lemma RootKeyIsUsed(d: Device, es: seq<Event>, h: seq<Word>, s: seq<Word>)
    requires ValidRun(es) && FirstAccepted(es, RootKey) == Some(h) && HasSignature(s)
    ensures RootEntryValid(d, PageAfter(es), s) <==> RootConstants(s) && RootHash(d, s) == h
  {
    hide *;
    CommandFields();
    RunKeepsProvisioning(es, RootKey);
    RootByContent(d, PageAfter(es), s);
    IsAfter(es);
  }

  lemma CommandFields()
    ensures ByCommand(RootKey) && ByCommand(PitId) && ByCommand(PchOffsets) && ByCommand(BmcOffsets)
    ensures Written(1) == Some(RootKey) && Written(2) == Some(PitId) && Written(5) == Some(PchOffsets) && Written(6) == Some(BmcOffsets)
    ensures RootKey.Words() == 8 && PitId.Words() == 2 && PchOffsets.Words() == 3 && BmcOffsets.Words() == 3
    ensures RootKey.Done() == RootKeyDone && PitId.Done() == PitIdDone && PchOffsets.Done() == PchDone && BmcOffsets.Done() == BmcDone
  {
  }

  lemma IsAfter(es: seq<Event>)
    requires ValidRun(es)
    ensures IsPage(PageAfter(es)) && |PageAfter(es)| == 59
  {
    hide PageAfter;
  }

  // Command 1 on an unlocked page without a root key hash makes its 32 bytes the hash that signatures are
  // checked against, until the page is erased
  lemma RootKeyCommand(d: Device, es: seq<Event>, n: nat, bytes: seq<bv8>, s: seq<Word>)
    requires ValidRun(es) && Obeyed(es, n, 1, bytes) && |bytes| == 32 && HasSignature(s)
    requires ValidRun(es[..n]) && !Has(PageAfter(es[..n]), RootKeyDone)
    ensures RootEntryValid(d, PageAfter(es), s) <==> RootConstants(s) && RootHash(d, s) == WordsOf(bytes)
  {
    hide *;
    CommandFields();
    ObeyedParts(es, n, 1, bytes);
    FieldSticks(es, n, 1, bytes, RootKey, PageAfter(es[..n]));
    RootByContent(d, PageAfter(es), s);
    IsAfter(es);
  }

  // ---------------------------------------------------------------- the regions of the flashes

  // The layout of a flash that the firmware goes by: the page holds the byte addresses of the active
  // manifest, the recovery region and the staging region
  function PchMap(u: Mem): FlashMap
    requires IsPage(u)
  {
    FlashMap(u[9] as nat / 4096, u[10] as nat / 4096, u[11] as nat / 4096, u[11], PchPolicy)
  }

  function BmcMap(u: Mem): FlashMap
    requires IsPage(u)
  {
    FlashMap(u[12] as nat / 4096, u[13] as nat / 4096, u[14] as nat / 4096, u[14], BmcPolicy)
  }

  lemma OffsetsAt(u: Mem)
    requires IsPage(u)
    ensures var pch, bmc := Content(u, PchOffsets), Content(u, BmcOffsets);
            && |pch| == |bmc| == 3 && pch[0] == u[9] && pch[1] == u[10] && pch[2] == u[11] && bmc[0] == u[12] && bmc[1] == u[13] && bmc[2] == u[14]
  {
    assert PchOffsets.First() == 9 && PchOffsets.Words() == 3 && BmcOffsets.First() == 12 && BmcOffsets.Words() == 3;
    ThreeAt(u, 9);
    ThreeAt(u, 12);
  }

  lemma ThreeAt(u: Mem, at: nat)
    requires at + 3 <= |u|
    ensures u[at..at + 3] == [u[at], u[at + 1], u[at + 2]]
  {
  }

  // Commands 5 and 6 give the regions of the PCH flash and of the BMC flash, in the order active manifest,
  // recovery region, staging region
  lemma OffsetCommands(es: seq<Event>, n: nat, bytes: seq<bv8>, cmd: nat)
    requires ValidRun(es) && Obeyed(es, n, cmd, bytes) && |bytes| == 12 && (cmd == 5 || cmd == 6)
    requires ValidRun(es[..n]) && !Has(PageAfter(es[..n]), if cmd == 5 then PchDone else BmcDone)
    ensures var u, w := PageAfter(es), WordsOf(bytes);
            && |w| == 3
            && (if cmd == 5 then PchMap(u) else BmcMap(u))
               == FlashMap(w[0] as nat / 4096, w[1] as nat / 4096, w[2] as nat / 4096, w[2], if cmd == 5 then PchPolicy else BmcPolicy)
  {
    CommandFields();
    IsAfter(es);
    FieldSticks(es, n, cmd, bytes, if cmd == 5 then PchOffsets else BmcOffsets, PageAfter(es[..n]));
    OffsetsAt(PageAfter(es));
    hide Has, Content, WordsOf, PageAfter, Obeyed;
  }

  // Commands 8, 0xC and 0xD report the bytes of commands 1, 5 and 6, on a locked page too
  lemma ReadCommands(es: seq<Event>, n: nat, bytes: seq<bv8>, cmd: nat, reader: nat, fifo: seq<bv8>)
    requires ValidRun(es) && Obeyed(es, n, cmd, bytes) && |bytes| == (if cmd == 1 then 32 else 12)
    requires (cmd == 1 && reader == 8) || (cmd == 5 && reader == 0xC) || (cmd == 6 && reader == 0xD)
    requires ValidRun(es[..n]) && !Has(PageAfter(es[..n]), if cmd == 1 then RootKeyDone else if cmd == 5 then PchDone else BmcDone)
    ensures FifoAfter(PageAfter(es), reader, fifo) == bytes
  {
    CommandFields();
    IsAfter(es);
    var fd := if cmd == 1 then RootKey else if cmd == 5 then PchOffsets else BmcOffsets;
    assert Reported(reader) == Some(fd);
    FieldSticks(es, n, cmd, bytes, fd, PageAfter(es[..n]));
    ReadsBack(bytes);
    hide Has, Content, WordsOf, PageAfter, Obeyed, BytesOf;
  }

  // Command 2 gives the ID that every T-1 entry asks for while the ID check is enabled
  lemma PitIdCommand(es: seq<Event>, n: nat, bytes: seq<bv8>, u: Mem, id: seq<Word>, pch: seq<Word>, bmc: seq<Word>)
    requires IsPage(u) && |id| == 2 && |pch| == 8 && |bmc| == 8 && |bytes| == 8 && Has(u, L1Enabled) && GivesId(es, n, bytes, u)
    ensures id != WordsOf(bytes) ==> PitPage(u, id, pch, bmc).1 != Passes
  {
    hide *;
    GivesIdParts(es, n, bytes, u);
    CommandFields();
    FieldSticks(es, n, 2, bytes, PitId, PageAfter(es[..n]));
    PassesWithId(u, id, pch, bmc);
  }

  // The page u comes from a run in which command 2 with these bytes was the one that gave the ID
  predicate GivesId(es: seq<Event>, n: nat, bytes: seq<bv8>, u: Mem) {
    && n < |es| && ValidRun(es) && ValidRun(es[..n]) && u == PageAfter(es)
    && !Has(PageAfter(es[..n]), PitIdDone) && Obeyed(es, n, 2, bytes)
  }

  lemma GivesIdParts(es: seq<Event>, n: nat, bytes: seq<bv8>, u: Mem)
    requires GivesId(es, n, bytes, u)
    ensures n < |es| && ValidRun(es) && ValidRun(es[..n]) && u == PageAfter(es) && IsPage(PageAfter(es[..n]))
    ensures !Has(PageAfter(es[..n]), PitIdDone) && Obeyed(es, n, 2, bytes)
  {
    hide Has, Obeyed, PageAfter;
  }

  lemma PassesWithId(u: Mem, id: seq<Word>, pch: seq<Word>, bmc: seq<Word>)
    requires IsPage(u) && Has(u, L1Enabled) && |id| == 2 && |pch| == 8 && |bmc| == 8
    ensures PitPage(u, id, pch, bmc).1 == Passes ==> Content(u, PitId) == id
  {
    hide Has, Content;
  }

  // ---------------------------------------------------------------- minimum SVNs

  ghost predicate AllUnary(u: Mem)
    requires IsPage(u)
  {
    Unary(u, CpldPolicy) && Unary(u, PchPolicy) && Unary(u, BmcPolicy)
  }

  predicate SamePolicies(u: Mem, v: Mem) { |u| == |v| == 59 && forall i: nat | 33 <= i < 39 :: u[i] == v[i] }

  lemma SamePoliciesSame(u: Mem, v: Mem, p: SvnPolicy)
    requires SamePolicies(u, v)
    ensures UfmSvn(u, p) == UfmSvn(v, p) && (Unary(u, p) <==> Unary(v, p))
  {
    forall i: nat | i < 64 ensures SvnBit(u, p, i) <==> SvnBit(v, p, i) { hide Bit; }
    hide SvnBit;
    SvnIsUnique(u, p, UfmSvn(v, p));
  }

  // Raising the minimum SVN of one policy leaves the others
  lemma RaiseOne(u: Mem, p: SvnPolicy, svn: nat, q: SvnPolicy)
    requires IsPage(u) && AllUnary(u) && svn <= 64
    ensures var r := SvnWritten(u, p, svn);
            && AllUnary(r) && UfmSvn(r, q) == if q == p then Max(UfmSvn(u, p), svn) else UfmSvn(u, q)
  {
    hide SvnBit, UfmSvn, SvnWritten, Unary;
    WriteKeepsUnary(u, p, svn);
    forall o: SvnPolicy | o != p ensures UfmSvn(SvnWritten(u, p, svn), o) == UfmSvn(u, o) && (Unary(SvnWritten(u, p, svn), o) <==> Unary(u, o)) {
      OtherPolicy(u, p, svn, o);
    }
  }

  lemma OtherPolicy(u: Mem, p: SvnPolicy, svn: nat, o: SvnPolicy)
    requires IsPage(u) && o != p
    ensures UfmSvn(SvnWritten(u, p, svn), o) == UfmSvn(u, o) && (Unary(SvnWritten(u, p, svn), o) <==> Unary(u, o))
  {
    var r := SvnWritten(u, p, svn);
    SvnWriteTouchesField(u, p, svn);
    forall i: nat | i < 64 ensures SvnBit(r, o, i) <==> SvnBit(u, o, i) { hide Bit, SvnWritten; }
    hide SvnBit, SvnWritten;
    SvnIsUnique(r, o, UfmSvn(u, o));
  }

  lemma BumpKeepsUnary(u: Mem, p: SvnPolicy, svn: nat)
    requires IsPage(u) && AllUnary(u)
    ensures AllUnary(SvnWritten(u, p, svn))
  {
    WriteKeepsUnary(u, p, svn);
    forall o: SvnPolicy | o != p ensures Unary(SvnWritten(u, p, svn), o) <==> Unary(u, o) {
      OtherPolicy(u, p, svn, o);
    }
    hide SvnBit, UfmSvn, SvnWritten, Unary;
  }

  lemma SamePoliciesUnary(u: Mem, v: Mem)
    requires SamePolicies(u, v) && AllUnary(u)
    ensures AllUnary(v)
  {
    SamePoliciesSame(u, v, CpldPolicy);
    SamePoliciesSame(u, v, PchPolicy);
    SamePoliciesSame(u, v, BmcPolicy);
    hide SamePolicies, Unary, UfmSvn;
  }

  lemma WithKeepsPolicies(u: Mem, g: Flag)
    requires IsPage(u)
    ensures SamePolicies(u, With(u, g))
  {
    hide Cleared;
  }

  lemma FilledKeepsPolicies(u: Mem, fd: Field, data: seq<Word>)
    requires IsPage(u) && |data| == fd.Words()
    ensures SamePolicies(u, Filled(u, fd, data))
  {
    FieldInHead(fd);
    forall i: nat | 33 <= i < 39 ensures Filled(u, fd, data)[i] == u[i] {
      FilledAt(u, fd, data, i);
    }
    hide Filled;
  }

  lemma LockKeepsUnary(u: Mem, pchSvn: nat, bmcSvn: nat)
    requires IsPage(u) && AllUnary(u)
    ensures AllUnary(LockedPage(u, pchSvn, bmcSvn))
  {
    var v := With(u, Locked);
    WithKeepsPolicies(u, Locked);
    SamePoliciesUnary(u, v);
    BumpKeepsUnary(v, PchPolicy, pchSvn);
    BumpKeepsUnary(v, BmcPolicy, bmcSvn);
    BumpKeepsUnary(SvnWritten(v, PchPolicy, pchSvn), BmcPolicy, bmcSvn);
    hide With, SvnWritten, AllUnary, SamePolicies;
  }

  lemma CommandKeepsUnary(u: Mem, cmd: nat, data: seq<Word>, pchSvn: nat, bmcSvn: nat)
    requires IsPage(u) && AllUnary(u) && (Written(cmd).Some? ==> |data| == Written(cmd).value.Words())
    ensures AllUnary(CommandPage(u, cmd, data, pchSvn, bmcSvn))
  {
    ErasedUnary();
    LockKeepsUnary(u, pchSvn, bmcSvn);
    forall g: Flag ensures AllUnary(With(u, g)) {
      WithKeepsPolicies(u, g);
      SamePoliciesUnary(u, With(u, g));
    }
    if Written(cmd).Some? {
      var fd := Written(cmd).value;
      FilledKeepsPolicies(With(u, fd.Done()), fd, data);
      SamePoliciesUnary(With(u, fd.Done()), Filled(With(u, fd.Done()), fd, data));
    }
    hide With, Filled, LockedPage, AllUnary, SamePolicies, Has;
  }

  lemma ErasedUnary()
    ensures AllUnary(ErasedPage())
  {
    ErasedThenWrites(CpldPolicy, []);
    ErasedThenWrites(PchPolicy, []);
    ErasedThenWrites(BmcPolicy, []);
    hide Unary, UfmSvn;
  }

  lemma PitKeepsUnary(u: Mem, id: seq<Word>, pchHash: seq<Word>, bmcHash: seq<Word>)
    requires IsPage(u) && AllUnary(u) && |id| == 2 && |pchHash| == 8 && |bmcHash| == 8
    ensures AllUnary(PitPage(u, id, pchHash, bmcHash).0)
  {
    var v := Filled(u, PchHash, pchHash);
    var w := Filled(v, BmcHash, bmcHash);
    FilledKeepsPolicies(u, PchHash, pchHash);
    FilledKeepsPolicies(v, BmcHash, bmcHash);
    WithKeepsPolicies(w, HashStored);
    WithKeepsPolicies(u, L2Passed);
    SamePoliciesUnary(u, v);
    SamePoliciesUnary(v, w);
    SamePoliciesUnary(w, With(w, HashStored));
    SamePoliciesUnary(u, With(u, L2Passed));
    hide With, Filled, AllUnary, SamePolicies, Has, Content;
  }

  lemma CancelKeepsUnary(u: Mem, pcType: nat, id: nat)
    requires IsPage(u) && AllUnary(u) && id <= 127
    ensures AllUnary(KeyCancelled(u, pcType, id))
  {
    assert SamePolicies(u, KeyCancelled(u, pcType, id)) by { hide Cleared; }
    hide KeyCancelled, SamePolicies, AllUnary;
    SamePoliciesUnary(u, KeyCancelled(u, pcType, id));
  }

  // In every run the SVN fields are zeros then ones
  lemma {:induction false} RunKeepsUnary(es: seq<Event>)
    requires ValidRun(es)
    ensures AllUnary(PageAfter(es))
    decreases |es|
  {
    if es == [] {
      ErasedUnary();
    } else {
      var before, e := es[..|es| - 1], es[|es| - 1];
      assert e in es;
      RunKeepsUnary(before);
      StepKeepsUnary(PageAfter(before), e);
      hide AllUnary, StepPage;
    }
  }

  lemma StepKeepsUnary(u: Mem, e: Event)
    requires IsPage(u) && e.Valid() && AllUnary(u)
    ensures AllUnary(StepPage(u, e))
  {
    hide AllUnary, CommandPage, PitPage, SvnWritten, KeyCancelled;
    match e
    case Command(cmd, bytes, pchSvn, bmcSvn) => CommandKeepsUnary(u, cmd, DataOf(cmd, bytes), pchSvn, bmcSvn);
    case Tmin1(id, pchHash, bmcHash) => PitKeepsUnary(u, id, pchHash, bmcHash);
    case Bump(policy, svn) => BumpKeepsUnary(u, policy, svn);
    case Cancel(pcType, keyId) => CancelKeepsUnary(u, pcType, keyId);
    case Decommission => ErasedUnary();
  }

  // Command 7 on an unlocked, provisioned page locks it for good and raises the minimum SVN of the PCH and
  // of the BMC to that of the recovery image on the platform, each its own, unless that is out of range
  lemma LockSetsFloors(es: seq<Event>, bytes: seq<bv8>, pchSvn: nat, bmcSvn: nat, later: Event)
    requires ValidRun(es) && !Has(PageAfter(es), Locked) && Provisioned(PageAfter(es))
    requires later.Command? && later.Valid() && Command(7, bytes, pchSvn, bmcSvn).Valid()
    ensures var u, r := PageAfter(es), StepPage(PageAfter(es), Command(7, bytes, pchSvn, bmcSvn));
            && Has(r, Locked) && StepPage(r, later) == r && Provisioned(r)
            && UfmSvn(r, PchPolicy) == (if pchSvn <= 64 then Max(UfmSvn(u, PchPolicy), pchSvn) else UfmSvn(u, PchPolicy))
            && UfmSvn(r, BmcPolicy) == (if bmcSvn <= 64 then Max(UfmSvn(u, BmcPolicy), bmcSvn) else UfmSvn(u, BmcPolicy))
            && UfmSvn(r, CpldPolicy) == UfmSvn(u, CpldPolicy)
  {
    var u := PageAfter(es);
    RunKeepsUnary(es);
    LockIs(u, bytes, pchSvn, bmcSvn);
    LockFloors(u, pchSvn, bmcSvn);
    LockFlags(u, pchSvn, bmcSvn);
    var r := LockedPage(u, pchSvn, bmcSvn);
    match later
    case Command(cmd, data, p, q) => LockedPageIsKept(r, cmd, data, p, q);
    hide *;
  }

  lemma LockIs(u: Mem, bytes: seq<bv8>, pchSvn: nat, bmcSvn: nat)
    requires IsPage(u) && !Has(u, Locked) && Provisioned(u) && Command(7, bytes, pchSvn, bmcSvn).Valid()
    ensures StepPage(u, Command(7, bytes, pchSvn, bmcSvn)) == LockedPage(u, pchSvn, bmcSvn)
  {
    hide Has, Provisioned, LockedPage;
  }

  lemma LockFlags(u: Mem, pchSvn: nat, bmcSvn: nat)
    requires IsPage(u) && Provisioned(u)
    ensures var r := LockedPage(u, pchSvn, bmcSvn); Has(r, Locked) && Provisioned(r)
  {
    StaysProvisioned(u, pchSvn, bmcSvn);
    WithFlag(u, Locked, Locked);
    LockingKeeps(u, pchSvn, bmcSvn);
    SameHeadSame(With(u, Locked), LockedPage(u, pchSvn, bmcSvn), Locked, RootKey);
    hide Has, Provisioned, With, LockedPage, SameHead;
  }

  lemma LockFloors(u: Mem, pchSvn: nat, bmcSvn: nat)
    requires IsPage(u) && AllUnary(u)
    ensures var r := LockedPage(u, pchSvn, bmcSvn);
            && UfmSvn(r, PchPolicy) == (if pchSvn <= 64 then Max(UfmSvn(u, PchPolicy), pchSvn) else UfmSvn(u, PchPolicy))
            && UfmSvn(r, BmcPolicy) == (if bmcSvn <= 64 then Max(UfmSvn(u, BmcPolicy), bmcSvn) else UfmSvn(u, BmcPolicy))
            && UfmSvn(r, CpldPolicy) == UfmSvn(u, CpldPolicy)
  {
    var v := With(u, Locked);
    WithKeepsPolicies(u, Locked);
    forall p: SvnPolicy ensures UfmSvn(v, p) == UfmSvn(u, p) {
      SamePoliciesSame(u, v, p);
      hide SamePolicies, UfmSvn, With;
    }
    SamePoliciesUnary(u, v);
    var w := if pchSvn <= 64 then SvnWritten(v, PchPolicy, pchSvn) else v;
    forall q: SvnPolicy ensures AllUnary(w) && UfmSvn(w, q) == if q == PchPolicy && pchSvn <= 64 then Max(UfmSvn(v, PchPolicy), pchSvn) else UfmSvn(v, q) {
      if pchSvn <= 64 {
        RaiseOne(v, PchPolicy, pchSvn, q);
      }
      hide AllUnary, UfmSvn, With, SvnWritten;
    }
    if bmcSvn <= 64 {
      RaiseOne(w, BmcPolicy, bmcSvn, PchPolicy);
      RaiseOne(w, BmcPolicy, bmcSvn, BmcPolicy);
      RaiseOne(w, BmcPolicy, bmcSvn, CpldPolicy);
    }
    hide AllUnary, UfmSvn, With, SvnWritten, SamePolicies;
  }

  // ---------------------------------------------------------------- protect in transit

  // Command 0x10 with a provisioned ID puts the ID check in force; command 0x11 then has the next T-1 entry
  // seal both flashes. The entry after that passes with the sealed flashes and the provisioned ID only, and
  // once it has passed the contents are not looked at again.
  lemma ChecksComeIntoForce(u: Mem, bytes: seq<bv8>, id: seq<Word>, pch: seq<Word>, bmc: seq<Word>,
                            other: seq<Word>, pch2: seq<Word>, bmc2: seq<Word>)
    requires IsPage(u) && Good(u) && !Has(u, Locked) && Has(u, PitIdDone) && !Has(u, L1Enabled) && Content(u, PitId) == id
    requires |id| == 2 && |pch| == 8 && |bmc| == 8 && |other| == 2 && |pch2| == 8 && |bmc2| == 8
    ensures var first := StepPage(u, Command(0x10, bytes, 0, 0));
            var second := StepPage(first, Command(0x11, bytes, 0, 0));
            var sealed := PitPage(second, id, pch, bmc);
            var passed := PitPage(sealed.0, id, pch, bmc);
            && (PitPage(first, other, pch, bmc) == (first, if other == id then Passes else StaysInTmin1))
            && sealed.1 == StaysInTmin1 && passed.1 == Passes
            && (PitPage(sealed.0, id, pch2, bmc2).1 == Passes <==> pch2 == pch && bmc2 == bmc)
            && PitPage(passed.0, other, pch2, bmc2) == (passed.0, if other == id then Passes else StaysInTmin1)
  {
    var first := With(u, L1Enabled);
    var second := With(first, L2Enabled);
    CheckFlags(u);
    EnableIs(u, bytes);
    EnableBoth(first, bytes);
    WithKeepsFields(u, L1Enabled, PitId);
    WithKeepsFields(first, L2Enabled, PitId);
    SealThenCheck(second, id, pch, bmc, pch2, bmc2);
    SealThenCheck(second, id, pch, bmc, pch, bmc);
    var sealed := PitPage(second, id, pch, bmc).0;
    SealedKeeps(second, id, pch, bmc);
    PassesOnce(sealed, id, pch, bmc, other, pch2, bmc2);
    OnlyId(first, other, pch, bmc);
    hide *;
  }

  lemma CheckFlags(u: Mem)
    requires IsPage(u) && Good(u) && !Has(u, Locked) && Has(u, PitIdDone) && !Has(u, L1Enabled)
    ensures var first := With(u, L1Enabled); var second := With(first, L2Enabled);
            && Good(second) && !Has(first, Locked) && Has(first, L1Enabled) && !Has(first, L2Enabled) && !Has(first, L2Passed)
            && Has(second, L1Enabled) && Has(second, L2Enabled) && !Has(second, HashStored)
  {
    var first := With(u, L1Enabled);
    forall g: Flag, v: Mem, h: Flag | v == u || v == first ensures IsPage(v) && (Has(With(v, g), h) <==> Has(v, h) || g == h) { WithFlag(v, g, h); }
    assert Ordered(u);
    WithKeepsGood(u, L1Enabled);
    WithKeepsGood(first, L2Enabled);
    hide Has, With, Good;
  }

  lemma EnableIs(u: Mem, bytes: seq<bv8>)
    requires IsPage(u) && !Has(u, Locked) && Has(u, PitIdDone)
    ensures Command(0x10, bytes, 0, 0).Valid() && StepPage(u, Command(0x10, bytes, 0, 0)) == With(u, L1Enabled)
  {
    hide Has, With;
  }

  lemma EnableBoth(u: Mem, bytes: seq<bv8>)
    requires IsPage(u) && !Has(u, Locked) && Has(u, L1Enabled) && !Has(u, L2Enabled)
    ensures Command(0x11, bytes, 0, 0).Valid() && StepPage(u, Command(0x11, bytes, 0, 0)) == With(u, L2Enabled)
  {
    hide Has, With;
  }

  lemma OnlyId(u: Mem, other: seq<Word>, pch: seq<Word>, bmc: seq<Word>)
    requires IsPage(u) && Has(u, L1Enabled) && !Has(u, L2Enabled) && |other| == 2 && |pch| == 8 && |bmc| == 8
    ensures PitPage(u, other, pch, bmc) == (u, if other == Content(u, PitId) then Passes else StaysInTmin1)
  {
    hide Has, Content;
  }

  // What sealing leaves
  lemma SealedKeeps(u: Mem, id: seq<Word>, pch: seq<Word>, bmc: seq<Word>)
    requires IsPage(u) && Good(u) && Has(u, L1Enabled) && Has(u, L2Enabled) && !Has(u, HashStored) && Content(u, PitId) == id
    requires |id| == 2 && |pch| == 8 && |bmc| == 8
    ensures var r := PitPage(u, id, pch, bmc).0;
            && Has(r, L1Enabled) && Has(r, L2Enabled) && Has(r, HashStored) && !Has(r, L2Passed) && Content(r, PitId) == id
            && Content(r, PchHash) == pch && Content(r, BmcHash) == bmc
  {
    assert Ordered(u);
    SealKeepsGood(u, pch, bmc, PitId);
    SealFlags(u, pch, bmc);
    hide Has, Content, Good, With, Filled;
  }

  lemma PassesOnce(u: Mem, id: seq<Word>, pch: seq<Word>, bmc: seq<Word>, other: seq<Word>, pch2: seq<Word>, bmc2: seq<Word>)
    requires IsPage(u) && Has(u, L1Enabled) && Has(u, L2Enabled) && Has(u, HashStored) && !Has(u, L2Passed)
    requires |id| == 2 && |pch| == 8 && |bmc| == 8 && |other| == 2 && |pch2| == 8 && |bmc2| == 8
    requires Content(u, PitId) == id && Content(u, PchHash) == pch && Content(u, BmcHash) == bmc
    ensures var passed := PitPage(u, id, pch, bmc);
            passed.1 == Passes && PitPage(passed.0, other, pch2, bmc2) == (passed.0, if other == id then Passes else StaysInTmin1)
  {
    var r := With(u, L2Passed);
    WithFlag(u, L2Passed, L2Passed);
    WithFlag(u, L2Passed, L1Enabled);
    WithKeepsFields(u, L2Passed, PitId);
    hide Has, Content, With;
  }
}
