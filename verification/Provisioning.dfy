/**
 Provisioning of the data page over the mailbox (fw/code/inc/t0_provisioning.h, ufm_rw_utils.h),
 and the protect-in-transit checks of T-1 (fw/code/inc/pit_utils.h).
 */
module Provisioning {
  import opened NorFlash
  import opened Bits
  import opened Ufm

  // ---------------------------------------------------------------- status bits and fields

  // The bits of the status word; a bit that is 0 is set in the sense of check_ufm_status
  datatype Flag = Locked | RootKeyDone | PchDone | BmcDone | PitIdDone | L1Enabled | L2Enabled | HashStored | L2Passed {
    function Pos(): (k: nat)
      ensures k < 9
    {
      match this
      case Locked => 0 case RootKeyDone => 1 case PchDone => 2 case BmcDone => 3 case PitIdDone => 4
      case L1Enabled => 5 case L2Enabled => 6 case HashStored => 7 case L2Passed => 8
    }
  }

  predicate Has(u: Mem, g: Flag)
    requires IsPage(u)
  {
    !Bit(u[0], g.Pos())
  }

  function With(u: Mem, g: Flag): (r: Mem)
    requires IsPage(u)
    ensures IsPage(r)
  {
    u[0 := Cleared(u[0], g.Pos())]
  }

  // is_ufm_provisioned
  predicate Provisioned(u: Mem)
    requires IsPage(u)
  {
    Has(u, RootKeyDone) && Has(u, PchDone) && Has(u, BmcDone)
  }

  datatype Field = RootKey | PitId | PchOffsets | BmcOffsets | PchHash | BmcHash {
    function First(): nat {
      match this
      case RootKey => 1 case PitId => 15 case PchOffsets => 9 case BmcOffsets => 12 case PchHash => 17 case BmcHash => 25
    }
    function Words(): nat {
      match this
      case RootKey => 8 case PitId => 2 case PchOffsets => 3 case BmcOffsets => 3 case PchHash => 8 case BmcHash => 8
    }
    function Done(): Flag {
      match this
      case RootKey => RootKeyDone case PitId => PitIdDone case PchOffsets => PchDone case BmcOffsets => BmcDone
      case PchHash => HashStored case BmcHash => HashStored
    }
  }

  function Content(u: Mem, fd: Field): (r: seq<Word>)
    requires IsPage(u)
    ensures |r| == fd.Words()
  {
    u[fd.First()..fd.First() + fd.Words()]
  }

  // The words of a field programmed
  function Filled(u: Mem, fd: Field, data: seq<Word>): (r: Mem)
    requires IsPage(u) && |data| == fd.Words()
    ensures IsPage(r)
  {
    seq(59, (i: nat) requires i < 59 =>
      if fd.First() <= i < fd.First() + fd.Words() then Nor(u[i], data[i - fd.First()]) else u[i])
  }

  function Blank(fd: Field): (r: seq<Word>)
    ensures |r| == fd.Words()
  {
    seq(fd.Words(), i => ERASED)
  }

  // ---------------------------------------------------------------- commands

  // The field a provisioning command writes, and the field a read command reports
  datatype Option<T> = None | Some(value: T)

  function Written(cmd: nat): Option<Field> {
    match cmd
    case 1 => Some(RootKey) case 2 => Some(PitId) case 5 => Some(PchOffsets) case 6 => Some(BmcOffsets) case _ => None
  }

  function Reported(cmd: nat): Option<Field> {
    match cmd case 8 => Some(RootKey) case 0xC => Some(PchOffsets) case 0xD => Some(BmcOffsets) case _ => None
  }

  // mb_process_lock_ufm_cmd: the minimum SVNs start at those of the images on the platform
  function LockedPage(u: Mem, pchSvn: nat, bmcSvn: nat): (r: Mem)
    requires IsPage(u)
    ensures IsPage(r)
  {
    var v := With(u, Locked);
    var w := if pchSvn <= 64 then SvnWritten(v, PchPolicy, pchSvn) else v;
    if bmcSvn <= 64 then SvnWritten(w, BmcPolicy, bmcSvn) else w
  }

  // The page after a command; data are the words the FIFO held for it
  function CommandPage(u: Mem, cmd: nat, data: seq<Word>, pchSvn: nat, bmcSvn: nat): (r: Mem)
    requires IsPage(u) && (Written(cmd).Some? ==> |data| == Written(cmd).value.Words())
    ensures IsPage(r)
  {
    if Reported(cmd).Some? || Has(u, Locked) then u
    else if cmd == 0 then ErasedPage()
    else if Written(cmd).Some? then
      var fd := Written(cmd).value;
      if Has(u, fd.Done()) then u else Filled(With(u, fd.Done()), fd, data)
    else if cmd == 0x10 then (if Has(u, PitIdDone) then With(u, L1Enabled) else u)
    else if cmd == 0x11 then (if Has(u, L2Enabled) || !Has(u, L1Enabled) then u else With(u, L2Enabled))
    else if cmd == 7 then (if Provisioned(u) then LockedPage(u, pchSvn, bmcSvn) else u)
    else u
  }

  // ---------------------------------------------------------------- protect in transit

  datatype PitOutcome = Passes | StaysInTmin1

  // perform_pit_l2_check; the hashes are those of both flashes
  function SealPage(u: Mem, pchHash: seq<Word>, bmcHash: seq<Word>): (r: (Mem, PitOutcome))
    requires IsPage(u) && |pchHash| == 8 && |bmcHash| == 8
    ensures IsPage(r.0)
  {
    if Has(u, L2Passed) || !Has(u, L2Enabled) then (u, Passes)
    else if !Has(u, HashStored) then
      (With(Filled(Filled(u, PchHash, pchHash), BmcHash, bmcHash), HashStored), StaysInTmin1)
    else if Content(u, PchHash) != pchHash || Content(u, BmcHash) != bmcHash then (u, StaysInTmin1)
    else (With(u, L2Passed), Passes)
  }

  // perform_pit_protection; id is what RFNVRAM holds
  function PitPage(u: Mem, id: seq<Word>, pchHash: seq<Word>, bmcHash: seq<Word>): (r: (Mem, PitOutcome))
    requires IsPage(u) && |id| == 2 && |pchHash| == 8 && |bmcHash| == 8
    ensures IsPage(r.0)
  {
    if Has(u, L1Enabled) && Content(u, PitId) != id then (u, StaysInTmin1) else SealPage(u, pchHash, bmcHash)
  }

  // ---------------------------------------------------------------- runs

  // Everything that changes the page: commands, T-1 entries, SVN bumps, key cancellations and
  // decommissioning
  datatype Event =
    | Command(cmd: nat, bytes: seq<bv8>, pchSvn: nat, bmcSvn: nat)
    | Tmin1(id: seq<Word>, pchHash: seq<Word>, bmcHash: seq<Word>)
    | Bump(policy: SvnPolicy, svn: nat)
    | Cancel(pcType: nat, keyId: nat)
    | Decommission
  {
    predicate Valid() {
      match this
      case Command(cmd, bytes, _, _) => Written(cmd).Some? ==> |bytes| == 4 * Written(cmd).value.Words()
      case Tmin1(id, pch, bmc) => |id| == 2 && |pch| == 8 && |bmc| == 8
      case Cancel(_, keyId) => keyId <= 127
      case _ => true
    }
  }

  function DataOf(cmd: nat, bytes: seq<bv8>): (r: seq<Word>)
    requires Written(cmd).Some? ==> |bytes| == 4 * Written(cmd).value.Words()
    ensures Written(cmd).Some? ==> |r| == Written(cmd).value.Words()
  {
    if Written(cmd).Some? then WordsOf(bytes) else []
  }

  function StepPage(u: Mem, e: Event): (r: Mem)
    requires IsPage(u) && e.Valid()
    ensures IsPage(r)
  {
    match e
    case Command(cmd, bytes, pchSvn, bmcSvn) => CommandPage(u, cmd, DataOf(cmd, bytes), pchSvn, bmcSvn)
    case Tmin1(id, pchHash, bmcHash) => PitPage(u, id, pchHash, bmcHash).0
    case Bump(policy, svn) => SvnWritten(u, policy, svn)
    case Cancel(pcType, keyId) => KeyCancelled(u, pcType, keyId)
    case Decommission => ErasedPage()
  }

  predicate ValidRun(es: seq<Event>) { forall e | e in es :: e.Valid() }

  // The page after a run from an erased page
  function PageAfter(es: seq<Event>): (u: Mem)
    requires ValidRun(es)
    ensures IsPage(u)
  {
    if es == [] then ErasedPage() else StepPage(PageAfter(es[..|es| - 1]), es[|es| - 1])
  }

  // The content of the first command for a field that was accepted since the page was last erased
  function FirstAccepted(es: seq<Event>, fd: Field): Option<seq<Word>>
    requires ValidRun(es)
  {
    if es == [] then None
    else
      var before, e := es[..|es| - 1], es[|es| - 1];
      assert e.Valid();
      var unlocked := !Has(PageAfter(before), Locked);
      if e.Decommission? || (e.Command? && e.cmd == 0 && unlocked) then None
      else
        match FirstAccepted(before, fd)
        case Some(data) => Some(data)
        case None =>
          if e.Command? && Written(e.cmd) == Some(fd) && unlocked then Some(DataOf(e.cmd, e.bytes))
          else None
  }

  // ---------------------------------------------------------------- what every step keeps

  // Each protection step needs the one before it, and only a provisioned page can be locked
  predicate Ordered(u: Mem)
    requires IsPage(u)
  {
    && (Has(u, L2Passed) ==> Has(u, HashStored))
    && (Has(u, HashStored) ==> Has(u, L2Enabled))
    && (Has(u, L2Enabled) ==> Has(u, L1Enabled))
    && (Has(u, L1Enabled) ==> Has(u, PitIdDone))
    && (Has(u, Locked) ==> Provisioned(u))
  }

  // A field that is not marked done is still erased
  predicate Untouched(u: Mem, fd: Field)
    requires IsPage(u)
  {
    Has(u, fd.Done()) || Content(u, fd) == Blank(fd)
  }

  predicate Good(u: Mem)
    requires IsPage(u)
  {
    Ordered(u) && forall fd: Field :: Untouched(u, fd)
  }

  lemma WithFlag(u: Mem, g: Flag, h: Flag)
    requires IsPage(u)
    ensures Has(With(u, g), h) <==> Has(u, h) || g == h
  {
    BitOfCleared(u[0], g.Pos(), h.Pos());
    OwnBit(g, h);
    hide Bit, Cleared;
  }

  lemma OwnBit(g: Flag, h: Flag)
    ensures g.Pos() == h.Pos() <==> g == h
  {
  }

  lemma WithKeepsFields(u: Mem, g: Flag, fd: Field)
    requires IsPage(u)
    ensures Content(With(u, g), fd) == Content(u, fd)
  {
    hide Cleared;
  }

  lemma FieldsApart(fd: Field, other: Field)
    requires fd != other
    ensures fd.First() + fd.Words() <= other.First() || other.First() + other.Words() <= fd.First()
  {
  }

  lemma FilledAt(u: Mem, fd: Field, data: seq<Word>, i: nat)
    requires IsPage(u) && |data| == fd.Words() && i < 59
    ensures Filled(u, fd, data)[i] == if fd.First() <= i < fd.First() + fd.Words() then Nor(u[i], data[i - fd.First()]) else u[i]
    ensures 0 < fd.First() && fd.First() + fd.Words() <= 59
  {
    hide Nor;
  }

  // Filling one field changes no flag and no other field, and fills it when it was erased
  lemma FilledFields(u: Mem, fd: Field, data: seq<Word>, other: Field)
    requires IsPage(u) && |data| == fd.Words()
    ensures Filled(u, fd, data)[0] == u[0]
    ensures other != fd ==> Content(Filled(u, fd, data), other) == Content(u, other)
    ensures Content(u, fd) == Blank(fd) ==> Content(Filled(u, fd, data), fd) == data
  {
    FilledAt(u, fd, data, 0);
    if other != fd {
      OtherFieldKept(u, fd, data, other);
    }
    if Content(u, fd) == Blank(fd) {
      BlankFieldFilled(u, fd, data);
    }
    hide *;
  }

  lemma OtherFieldKept(u: Mem, fd: Field, data: seq<Word>, other: Field)
    requires IsPage(u) && |data| == fd.Words() && other != fd
    ensures Content(Filled(u, fd, data), other) == Content(u, other)
  {
    var r, first, last := Filled(u, fd, data), other.First(), other.First() + other.Words();
    FieldsApart(fd, other);
    hide Nor, Filled;
    forall i: nat | first <= i < last ensures r[i] == u[i] {
      FilledAt(u, fd, data, i);
    }
    SlicesSame(r, u, first, last);
  }

  lemma BlankFieldFilled(u: Mem, fd: Field, data: seq<Word>)
    requires IsPage(u) && |data| == fd.Words() && Content(u, fd) == Blank(fd)
    ensures Content(Filled(u, fd, data), fd) == data
  {
    var r, first := Filled(u, fd, data), fd.First();
    hide Nor, Filled;
    forall i: nat | i < fd.Words() ensures r[first + i] == data[i] {
      FilledAt(u, fd, data, first + i);
      assert Content(u, fd)[i] == ERASED;
      ErasedCell(data[i]);
    }
  }

  lemma SlicesSame(r: Mem, u: Mem, a: nat, b: nat)
    requires a <= b <= |r| == |u| && forall i: nat | a <= i < b :: r[i] == u[i]
    ensures r[a..b] == u[a..b]
  {
  }

  lemma ErasedCell(w: Word)
    ensures Nor(ERASED, w) == w
  {
  }

  // Two pages agree on the status word and the provisioned fields
  predicate SameHead(u: Mem, v: Mem) { |u| == |v| == 59 && u[..33] == v[..33] }

  lemma SameHeadSame(u: Mem, v: Mem, g: Flag, fd: Field)
    requires SameHead(u, v)
    ensures (Has(u, g) <==> Has(v, g)) && Content(u, fd) == Content(v, fd)
  {
    hide Bit;
    assert forall i: nat | i < 33 :: u[i] == u[..33][i] == v[..33][i] == v[i];
    FieldInHead(fd);
    SlicesSame(u, v, fd.First(), fd.First() + fd.Words());
  }

  lemma FieldInHead(fd: Field)
    ensures fd.First() + fd.Words() <= 33
  {
  }

  lemma BumpKeepsHead(u: Mem, p: SvnPolicy, svn: nat)
    requires IsPage(u)
    ensures SameHead(u, SvnWritten(u, p, svn))
  {
    SvnWriteTouchesField(u, p, svn);
    hide SvnWritten;
  }

  lemma CancelKeepsHead(u: Mem, pcType: nat, id: nat)
    requires IsPage(u) && id <= 127
    ensures SameHead(u, KeyCancelled(u, pcType, id))
  {
    hide Cleared;
  }

  lemma ErasedIsGood()
    ensures Good(ErasedPage()) && forall g: Flag :: !Has(ErasedPage(), g)
  {
    hide Bit;
    forall g: Flag ensures !Has(ErasedPage(), g) {
      BitOfOnes(g.Pos());
    }
  }

  // Setting a flag keeps the order when the flags it needs are set, and no blank field is marked done
  predicate MaySet(u: Mem, g: Flag)
    requires IsPage(u)
  {
    && (g == L2Passed ==> Has(u, HashStored)) && (g == HashStored ==> Has(u, L2Enabled))
    && (g == L2Enabled ==> Has(u, L1Enabled)) && (g == L1Enabled ==> Has(u, PitIdDone))
    && (g == Locked ==> Provisioned(u))
  }

  lemma WithKeepsGood(u: Mem, g: Flag)
    requires IsPage(u) && Good(u) && MaySet(u, g)
    ensures Good(With(u, g))
  {
    var r := With(u, g);
    forall h: Flag ensures Has(r, h) <==> Has(u, h) || g == h { WithFlag(u, g, h); }
    forall fd: Field ensures Untouched(r, fd) {
      WithKeepsFields(u, g, fd);
      assert Untouched(u, fd);
    }
    hide Has, With, Untouched;
  }

  lemma FilledKeepsGood(u: Mem, fd: Field, data: seq<Word>)
    requires IsPage(u) && Good(u) && |data| == fd.Words() && Has(u, fd.Done())
    ensures Good(Filled(u, fd, data))
  {
    var r := Filled(u, fd, data);
    FilledFields(u, fd, data, fd);
    forall g: Flag ensures Has(r, g) <==> Has(u, g) { hide Bit, Filled; }
    forall other: Field ensures Untouched(r, other) {
      FilledFields(u, fd, data, other);
      assert Untouched(u, other);
      hide Filled, Bit;
    }
    hide Has, Filled, Untouched;
  }

  lemma SameHeadKeepsGood(u: Mem, v: Mem)
    requires IsPage(u) && Good(u) && SameHead(u, v)
    ensures IsPage(v) && Good(v)
  {
    forall g: Flag ensures Has(u, g) <==> Has(v, g) { SameHeadSame(u, v, g, RootKey); }
    forall fd: Field ensures Untouched(v, fd) {
      SameHeadSame(u, v, Locked, fd);
      assert Untouched(u, fd);
    }
    hide Has, Untouched, SameHead;
  }

  // The flag and the content of a field are as before
  predicate KeepsField(u: Mem, r: Mem, fd: Field)
    requires IsPage(u) && IsPage(r)
  {
    (Has(r, fd.Done()) <==> Has(u, fd.Done())) && Content(r, fd) == Content(u, fd)
  }

  lemma SameHeadKeepsField(u: Mem, v: Mem, fd: Field)
    requires IsPage(u) && SameHead(u, v)
    ensures IsPage(v) && KeepsField(u, v, fd)
  {
    SameHeadSame(u, v, fd.Done(), fd);
    hide Has, SameHead, Content;
  }

  lemma WithKeepsField(u: Mem, g: Flag, fd: Field)
    requires IsPage(u) && g != fd.Done()
    ensures KeepsField(u, With(u, g), fd)
  {
    WithFlag(u, g, fd.Done());
    WithKeepsFields(u, g, fd);
    hide Has, With, Content;
  }

  lemma FilledKeepsField(u: Mem, fd: Field, data: seq<Word>, other: Field)
    requires IsPage(u) && |data| == fd.Words() && other != fd
    ensures KeepsField(u, Filled(u, fd, data), other)
  {
    FilledFields(u, fd, data, other);
    hide Bit, Filled, Content;
  }

  lemma LockingKeeps(u: Mem, pchSvn: nat, bmcSvn: nat)
    requires IsPage(u)
    ensures SameHead(With(u, Locked), LockedPage(u, pchSvn, bmcSvn))
  {
    var v := With(u, Locked);
    var w := if pchSvn <= 64 then SvnWritten(v, PchPolicy, pchSvn) else v;
    BumpKeepsHead(v, PchPolicy, pchSvn);
    BumpKeepsHead(w, BmcPolicy, bmcSvn);
    hide SvnWritten, With;
  }

  // The fields that commands provision
  predicate ByCommand(fd: Field) { !fd.PchHash? && !fd.BmcHash? }

  lemma AcceptedField(u: Mem, fd: Field, data: seq<Word>)
    requires IsPage(u) && Good(u) && |data| == fd.Words() && ByCommand(fd) && !Has(u, fd.Done())
    ensures var r := Filled(With(u, fd.Done()), fd, data);
            Good(r) && Has(r, fd.Done()) && Content(r, fd) == data
    ensures forall other: Field | other != fd :: KeepsField(u, Filled(With(u, fd.Done()), fd, data), other)
  {
    var v := With(u, fd.Done());
    assert MaySet(u, fd.Done());
    WithKeepsGood(u, fd.Done());
    WithFlag(u, fd.Done(), fd.Done());
    WithKeepsFields(u, fd.Done(), fd);
    assert Untouched(u, fd);
    FilledKeepsGood(v, fd, data);
    FilledFields(v, fd, data, fd);
    var r := Filled(v, fd, data);
    assert Has(r, fd.Done()) by { hide Bit, Filled, With; }
    forall other: Field | other != fd ensures KeepsField(u, r, other) {
      assert fd.Done() != other.Done();
      WithKeepsField(u, fd.Done(), other);
      FilledKeepsField(v, fd, data, other);
      hide Has, With, Filled, Content;
    }
    hide Has, With, Filled, Content, Good;
  }

  // What a step does to the fields commands provision
  ghost predicate FieldStep(u: Mem, e: Event, fd: Field)
    requires IsPage(u) && e.Valid()
  {
    var r, unlocked := StepPage(u, e), !Has(u, Locked);
    if e.Decommission? || (e.Command? && e.cmd == 0 && unlocked) then !Has(r, fd.Done())
    else if Has(u, fd.Done()) then Has(r, fd.Done()) && Content(r, fd) == Content(u, fd)
    else if e.Command? && Written(e.cmd) == Some(fd) && unlocked then
      Has(r, fd.Done()) && Content(r, fd) == DataOf(e.cmd, e.bytes)
    else !Has(r, fd.Done())
  }

  lemma KeptStep(u: Mem, e: Event, fd: Field)
    requires IsPage(u) && e.Valid() && KeepsField(u, StepPage(u, e), fd)
    requires !(e.Decommission? || (e.Command? && e.cmd == 0 && !Has(u, Locked)))
    requires Has(u, fd.Done()) || !(e.Command? && Written(e.cmd) == Some(fd) && !Has(u, Locked))
    ensures FieldStep(u, e, fd)
  {
    hide StepPage, Has, Content;
  }

  lemma CommandStep(u: Mem, cmd: nat, bytes: seq<bv8>, pchSvn: nat, bmcSvn: nat, fd: Field)
    requires IsPage(u) && Good(u) && ByCommand(fd) && Command(cmd, bytes, pchSvn, bmcSvn).Valid()
    ensures var e := Command(cmd, bytes, pchSvn, bmcSvn); Good(StepPage(u, e)) && FieldStep(u, e, fd)
  {
    var e := Command(cmd, bytes, pchSvn, bmcSvn);
    var data, r := DataOf(cmd, bytes), StepPage(u, e);
    hide Content, Good, With, Filled, LockedPage, WordsOf, Provisioned;
    if Has(u, Locked) || Reported(cmd).Some? {
      assert r == u;
      KeptStep(u, e, fd);
    } else if cmd == 0 {
      ErasedIsGood();
    } else if Written(cmd).Some? {
      var target := Written(cmd).value;
      if Has(u, target.Done()) {
        assert r == u;
        KeptStep(u, e, fd);
      } else {
        AcceptedField(u, target, data);
        if fd != target {
          KeptStep(u, e, fd);
        }
      }
    } else if cmd == 0x10 && Has(u, PitIdDone) {
      WithKeepsGood(u, L1Enabled);
      WithKeepsField(u, L1Enabled, fd);
      KeptStep(u, e, fd);
    } else if cmd == 0x11 && !Has(u, L2Enabled) && Has(u, L1Enabled) {
      WithKeepsGood(u, L2Enabled);
      WithKeepsField(u, L2Enabled, fd);
      KeptStep(u, e, fd);
    } else if cmd == 7 && Provisioned(u) {
      var v := With(u, Locked);
      WithKeepsGood(u, Locked);
      LockingKeeps(u, pchSvn, bmcSvn);
      SameHeadKeepsGood(v, r);
      WithKeepsField(u, Locked, fd);
      SameHeadKeepsField(v, r, fd);
      KeptStep(u, e, fd);
    } else {
      assert r == u;
      KeptStep(u, e, fd);
    }
  }

  lemma SealKeepsGood(u: Mem, pchHash: seq<Word>, bmcHash: seq<Word>, fd: Field)
    requires IsPage(u) && Good(u) && |pchHash| == |bmcHash| == 8 && Has(u, L2Enabled) && !Has(u, HashStored) && ByCommand(fd)
    ensures var r := With(Filled(Filled(u, PchHash, pchHash), BmcHash, bmcHash), HashStored);
            && Good(r) && KeepsField(u, r, fd)
            && Has(r, HashStored) && Content(r, PchHash) == pchHash && Content(r, BmcHash) == bmcHash
  {
    var v := Filled(u, PchHash, pchHash);
    var w := Filled(v, BmcHash, bmcHash);
    var r := With(w, HashStored);
    assert Untouched(u, PchHash) && Untouched(u, BmcHash);
    FilledFields(u, PchHash, pchHash, BmcHash);
    FilledFields(v, BmcHash, bmcHash, PchHash);
    FilledFields(v, BmcHash, bmcHash, BmcHash);
    WithKeepsFields(w, HashStored, PchHash);
    WithKeepsFields(w, HashStored, BmcHash);
    FilledFields(u, PchHash, pchHash, PchHash);
    FilledKeepsField(u, PchHash, pchHash, fd);
    FilledKeepsField(v, BmcHash, bmcHash, fd);
    WithKeepsField(w, HashStored, fd);
    forall other: Field | ByCommand(other) ensures Content(w, other) == Content(u, other) {
      FilledFields(u, PchHash, pchHash, other);
      FilledFields(v, BmcHash, bmcHash, other);
      hide Filled, Content;
    }
    hide Filled, Content, With;
    SealGood(u, v, w);
  }

  // The page after sealing: its flags are those before plus one, its fields are filled or kept
  lemma SealGood(u: Mem, v: Mem, w: Mem)
    requires IsPage(u) && IsPage(v) && IsPage(w) && Good(u) && Has(u, L2Enabled)
    requires u[0] == v[0] == w[0]
    requires forall other: Field | ByCommand(other) :: Content(w, other) == Content(u, other)
    ensures Good(With(w, HashStored)) && Has(With(w, HashStored), HashStored)
  {
    var r := With(w, HashStored);
    forall h: Flag ensures Has(r, h) <==> Has(u, h) || h == HashStored { WithFlag(w, HashStored, h); hide Bit, With; }
    forall other: Field ensures Untouched(r, other) {
      WithKeepsFields(w, HashStored, other);
      assert Untouched(u, other);
      hide With, Has, Content;
    }
    hide Has, With, Untouched;
  }

  lemma PitStep(u: Mem, id: seq<Word>, pchHash: seq<Word>, bmcHash: seq<Word>, fd: Field)
    requires IsPage(u) && Good(u) && ByCommand(fd) && Tmin1(id, pchHash, bmcHash).Valid()
    ensures var e := Tmin1(id, pchHash, bmcHash); Good(StepPage(u, e)) && FieldStep(u, e, fd)
  {
    var e := Tmin1(id, pchHash, bmcHash);
    var r := StepPage(u, e);
    if r == u {
    } else if !Has(u, HashStored) {
      SealKeepsGood(u, pchHash, bmcHash, fd);
    } else {
      WithKeepsGood(u, L2Passed);
      WithKeepsField(u, L2Passed, fd);
    }
    hide Has, Content, Good, With, Filled, PitPage;
    KeptStep(u, e, fd);
  }

  lemma EventStep(u: Mem, e: Event, fd: Field)
    requires IsPage(u) && Good(u) && ByCommand(fd) && e.Valid()
    ensures Good(StepPage(u, e)) && FieldStep(u, e, fd)
  {
    match e
    case Command(cmd, bytes, pchSvn, bmcSvn) =>
      CommandStep(u, cmd, bytes, pchSvn, bmcSvn, fd);
    case Tmin1(id, pchHash, bmcHash) =>
      PitStep(u, id, pchHash, bmcHash, fd);
    case Bump(policy, svn) =>
      BumpKeepsHead(u, policy, svn);
      SameHeadKeepsGood(u, StepPage(u, e));
      SameHeadKeepsField(u, StepPage(u, e), fd);
      hide SvnWritten, Good, KeepsField, Has;
      KeptStep(u, e, fd);
    case Cancel(pcType, keyId) =>
      CancelKeepsHead(u, pcType, keyId);
      SameHeadKeepsGood(u, StepPage(u, e));
      SameHeadKeepsField(u, StepPage(u, e), fd);
      hide KeyCancelled, Good, KeepsField, Has;
      KeptStep(u, e, fd);
    case Decommission =>
      ErasedIsGood();
  }

  // After any run from an erased page the protection steps are in order, a page is locked only when
  // it is provisioned, and each field holds the content of the first command accepted for it since
  // the last erase, or is marked as not provisioned when there was none
  lemma {:induction false} RunKeepsProvisioning(es: seq<Event>, fd: Field)
    requires ValidRun(es) && ByCommand(fd)
    ensures var u := PageAfter(es);
            && Ordered(u)
            && match FirstAccepted(es, fd)
               case Some(data) => Has(u, fd.Done()) && Content(u, fd) == data
               case None => !Has(u, fd.Done())
    ensures Good(PageAfter(es))
    decreases |es|
  {
    if es == [] {
      ErasedIsGood();
    } else {
      var before, e := es[..|es| - 1], es[|es| - 1];
      assert e in es;
      RunKeepsProvisioning(before, fd);
      EventStep(PageAfter(before), e, fd);
      hide Has, Content, StepPage, DataOf;
    }
  }

  // No command changes the page while it is locked
  lemma LockedPageIsKept(u: Mem, cmd: nat, bytes: seq<bv8>, pchSvn: nat, bmcSvn: nat)
    requires IsPage(u) && Has(u, Locked) && Command(cmd, bytes, pchSvn, bmcSvn).Valid()
    ensures StepPage(u, Command(cmd, bytes, pchSvn, bmcSvn)) == u
  {
  }

  // Once sealed, the platform leaves T-1 only with the flash contents that were sealed, until the
  // check has passed once
  lemma SealedUntilPassed(u: Mem, id: seq<Word>, pchHash: seq<Word>, bmcHash: seq<Word>)
    requires IsPage(u) && Tmin1(id, pchHash, bmcHash).Valid() && PitPage(u, id, pchHash, bmcHash).1.Passes?
    ensures Has(u, L1Enabled) ==> Content(u, PitId) == id
    ensures Has(u, L2Enabled) && !Has(u, L2Passed) ==>
              Has(u, HashStored) && Content(u, PchHash) == pchHash && Content(u, BmcHash) == bmcHash
  {
  }

  // Sealing an in-order page stores both hashes; the next T-1 entry passes with the same flashes
  // and with no others
  lemma SealThenCheck(u: Mem, id: seq<Word>, pch: seq<Word>, bmc: seq<Word>, pch2: seq<Word>, bmc2: seq<Word>)
    requires IsPage(u) && Good(u) && Has(u, L2Enabled) && !Has(u, HashStored) && Content(u, PitId) == id
    requires Tmin1(id, pch, bmc).Valid() && Tmin1(id, pch2, bmc2).Valid()
    ensures var sealed := PitPage(u, id, pch, bmc);
            && sealed.1 == StaysInTmin1
            && (PitPage(sealed.0, id, pch2, bmc2).1.Passes? <==> pch2 == pch && bmc2 == bmc)
  {
    var v := With(Filled(Filled(u, PchHash, pch), BmcHash, bmc), HashStored);
    assert !Has(u, L2Passed);
    assert PitPage(u, id, pch, bmc) == (v, StaysInTmin1);
    SealKeepsGood(u, pch, bmc, PitId);
    SealFlags(u, pch, bmc);
    hide Has, Content, Good, With, Filled;
  }

  lemma SealFlags(u: Mem, pch: seq<Word>, bmc: seq<Word>)
    requires IsPage(u) && |pch| == |bmc| == 8
    ensures var v := With(Filled(Filled(u, PchHash, pch), BmcHash, bmc), HashStored);
            forall g: Flag | g != HashStored :: Has(v, g) <==> Has(u, g)
  {
    var w := Filled(Filled(u, PchHash, pch), BmcHash, bmc);
    assert w[0] == u[0];
    forall g: Flag | g != HashStored ensures Has(With(w, HashStored), g) <==> Has(u, g) {
      WithFlag(w, HashStored, g);
      hide Bit, With, Filled;
    }
  }

  // ---------------------------------------------------------------- the mailbox

  // The provisioning status bits the firmware reports
  datatype Status = Busy | DoneBit | Error | LockedBit | ProvisionedBit | L1Bit | L2Bit

  datatype Effect = Nothing | ReconfigureToCfm1 | PlatformReset

  // The mailbox FIFO, its provisioning status register and the page behind it
  class Mailbox {
    const page: array<Word>
    // What a read of the empty FIFO returns
    const idle: bv8
    var fifo: seq<bv8>
    var status: set<Status>

    constructor (idle: bv8)
      ensures page.Length == 59 && fresh(page) && page[..] == ErasedPage() && fifo == [] && status == {}
    {
      page := new Word[59](i => ERASED);
      this.idle := idle;
      fifo := [];
      status := {};
    }

    method ReadFromFifo() returns (b: bv8)
      modifies this`fifo
      ensures b == Head(old(fifo), idle) && fifo == Tail(old(fifo))
    {
      if fifo == [] {
        b := idle;
      } else {
        b := fifo[0];
        fifo := fifo[1..];
      }
    }

    // write_ufm_from_mb_fifo for a whole field
    method WriteUfmFromFifo(fd: Field)
      requires page.Length == 59
      modifies this`fifo, page
      ensures fifo == [] && page[..] == Filled(old(page[..]), fd, WordsOf(Taken(old(fifo), 4 * fd.Words(), idle)))
    {
      ghost var held := fifo;
      var n := 4 * fd.Words();
      var buffer := new bv8[n];
      for i := 0 to n
        invariant fifo == Dropped(held, i) && buffer[..i] == Taken(held, i, idle) && page[..] == old(page[..])
      {
        var b := ReadFromFifo();
        buffer[i] := b;
      }
      fifo := [];
      assert buffer[..n] == buffer[..];
      CopyToPage(fd, WordsOf(buffer[..]));
    }

    // alt_u32_memcpy to the page
    method CopyToPage(fd: Field, data: seq<Word>)
      requires page.Length == 59 && |data| == fd.Words()
      modifies page
      ensures page[..] == Filled(old(page[..]), fd, data)
    {
      hide Nor;
      for i := 0 to |data|
        invariant forall k: nat | k < 59 ::
            page[k] == if fd.First() <= k < fd.First() + i then Nor(old(page[k]), data[k - fd.First()]) else old(page[k])
      {
        Store(page, fd.First() + i, data[i]);
      }
    }

    // write_mb_fifo_from_ufm for a whole field
    method WriteFifoFromUfm(fd: Field)
      requires page.Length == 59
      modifies this`fifo
      ensures fifo == BytesOf(Content(page[..], fd))
    {
      hide Lane;
      fifo := [];
      var n := 4 * fd.Words();
      ghost var ws := Content(page[..], fd);
      for i := 0 to n
        invariant fifo == BytesOf(ws)[..i]
      {
        var b := ByteAt(page[fd.First()..fd.First() + fd.Words()], i);
        fifo := fifo + [b];
      }
    }

    method SetFlag(g: Flag)
      requires page.Length == 59
      modifies page
      ensures page[..] == With(old(page[..]), g)
    {
      ClearTwice(page[0], Mask(g.Pos()));
      hide Mask, Nor, Without;
      Store(page, 0, Cleared(page[0], g.Pos()));
    }

    // A provisioning command for a field
    method ProvisionField(fd: Field)
      requires page.Length == 59
      modifies this, page
      ensures var u, data := old(page[..]), WordsOf(Taken(old(fifo), 4 * fd.Words(), idle));
              && page[..] == (if Has(u, fd.Done()) then u else Filled(With(u, fd.Done()), fd, data))
              && fifo == (if Has(u, fd.Done()) then old(fifo) else [])
              && status == (if Has(u, fd.Done()) then old(status) + {Error} else old(status))
    {
      hide *;
      Pages();
      if Has(page[..], fd.Done()) {
        status := status + {Error};
      } else {
        SetFlag(fd.Done());
        WriteUfmFromFifo(fd);
      }
    }

    // mb_process_enable_pit_ufm_cmd
    method ProcessEnablePit(cmd: nat) returns (effect: Effect)
      requires page.Length == 59
      modifies this`status, page
      ensures var u := old(page[..]);
              && page[..] == (if cmd == 0x10 then (if Has(u, PitIdDone) then With(u, L1Enabled) else u)
                              else if cmd == 0x11 then (if Has(u, L2Enabled) || !Has(u, L1Enabled) then u else With(u, L2Enabled))
                              else u)
              && (Error in status <==> Error in old(status) || (cmd == 0x10 && !Has(u, PitIdDone))
                                       || (cmd == 0x11 && (Has(u, L2Enabled) || !Has(u, L1Enabled))))
              && (L1Bit in status <==> L1Bit in old(status) || (cmd == 0x10 && Has(u, PitIdDone)))
              && (forall x | x in {ProvisionedBit, LockedBit, L2Bit} :: x in status <==> x in old(status))
              && effect == (if cmd == 0x11 && !Has(u, L2Enabled) && Has(u, L1Enabled) then PlatformReset else Nothing)
    {
      hide *;
      Pages();
      effect := Nothing;
      if cmd == 0x10 {
        if Has(page[..], PitIdDone) {
          SetFlag(L1Enabled);
          status := status + {L1Bit};
        } else {
          status := status + {Error};
        }
      } else if cmd == 0x11 {
        if Has(page[..], L2Enabled) || !Has(page[..], L1Enabled) {
          status := status + {Error};
        } else {
          SetFlag(L2Enabled);
          status := status + {DoneBit} - {Busy};
          effect := PlatformReset;
        }
      }
    }

    // mb_process_lock_ufm_cmd; the SVNs are those of the recovery images in the mailbox
    method ProcessLock(cmd: nat, pchSvn: nat, bmcSvn: nat)
      requires page.Length == 59
      modifies this`status, page
      ensures var u := old(page[..]);
              && page[..] == (if cmd == 7 && Provisioned(u) then LockedPage(u, pchSvn, bmcSvn) else u)
              && (Error in status <==> Error in old(status) || (cmd == 7 && !Provisioned(u)))
              && (LockedBit in status <==> LockedBit in old(status) || (cmd == 7 && Provisioned(u)))
              && (forall x | x in {ProvisionedBit, L1Bit, L2Bit} :: x in status <==> x in old(status))
    {
      hide SvnWritten, With, Provisioned;
      if cmd == 7 {
        if !Provisioned(page[..]) {
          status := status + {Error};
        } else {
          SetFlag(Locked);
          status := status + {LockedBit};
          if pchSvn <= 64 {
            WriteUfmSvn(page, pchSvn, PchPolicy);
          }
          if bmcSvn <= 64 {
            WriteUfmSvn(page, bmcSvn, BmcPolicy);
          }
        }
      }
    }

    // mb_process_ufm_cmd
    method ProcessUfmCmd(cmd: nat, pchSvn: nat, bmcSvn: nat) returns (effect: Effect)
      requires page.Length == 59
      modifies this, page
      ensures page[..] == CommandPage(old(page[..]), cmd, CommandData(cmd, old(fifo), idle), pchSvn, bmcSvn)
      ensures fifo == FifoAfter(old(page[..]), cmd, old(fifo))
      ensures Error in status <==> Error in old(status) || Rejected(old(page[..]), cmd)
      ensures effect == EffectOf(old(page[..]), cmd) && StatusFollows(old(page[..]), page[..], cmd, old(status), status)
    {
      effect := Nothing;
      ghost var u, was := page[..], status;
      CommandCases(page[..], cmd, fifo, idle, pchSvn, bmcSvn);
      EffectCases(u, cmd);
      hide *;
      if Reported(cmd).Some? {
        WriteFifoFromUfm(Reported(cmd).value);
      } else if !Has(page[..], Locked) {
        if cmd == 0 {
          UfmErasePage(page);
          status := status - {ProvisionedBit, L1Bit, L2Bit};
        } else if Written(cmd).Some? {
          ProvisionField(Written(cmd).value);
        }
        ghost var mid := page[..];
        StaysProvisioned(mid, pchSvn, bmcSvn);
        if Provisioned(page[..]) {
          status := status + {ProvisionedBit};
        }
        if cmd == 0xE {
          effect := ReconfigureToCfm1;
        }
        if cmd == 0x10 || cmd == 0x11 {
          effect := ProcessEnablePit(cmd);
        }
        ProcessLock(cmd, pchSvn, bmcSvn);
      } else {
        status := status + {Error};
      }
      StatusIs(u, page[..], cmd, was, status);
    }

    // mb_ufm_provisioning_handler, once the execute bit is set
    method HandleCommand(cmd: nat, pchSvn: nat, bmcSvn: nat) returns (effect: Effect)
      requires page.Length == 59
      modifies this, page
      ensures page[..] == CommandPage(old(page[..]), cmd, CommandData(cmd, old(fifo), idle), pchSvn, bmcSvn)
      ensures fifo == FifoAfter(old(page[..]), cmd, old(fifo))
      ensures Busy !in status && DoneBit in status && (Error in status <==> Rejected(old(page[..]), cmd))
      ensures effect == EffectOf(old(page[..]), cmd) && StatusFollows(old(page[..]), page[..], cmd, old(status), status)
    {
      hide *;
      Pages();
      ghost var u, was := page[..], status;
      status := status - {Busy, DoneBit, Error};
      status := status + {Busy};
      ghost var begun := status;
      effect := ProcessUfmCmd(cmd, pchSvn, bmcSvn);
      StatusIs(u, page[..], cmd, begun, status);
      status := status - {Busy};
      status := status + {DoneBit};
      StatusIs(u, page[..], cmd, was, status);
    }

    // perform_pit_l1_check
    method PitL1Check(id: seq<Word>) returns (outcome: PitOutcome)
      requires page.Length == 59 && |id| == 2
      ensures outcome == if Has(page[..], L1Enabled) && Content(page[..], PitId) != id then StaysInTmin1 else Passes
    {
      hide Has;
      if Has(page[..], L1Enabled) {
        for i := 0 to 2
          invariant Content(page[..], PitId)[..i] == id[..i]
        {
          if page[15 + i] != id[i] {
            assert Content(page[..], PitId)[i] != id[i];
            return StaysInTmin1;
          }
        }
        assert Content(page[..], PitId)[..2] == Content(page[..], PitId) && id[..2] == id;
      }
      return Passes;
    }

    // perform_pit_l2_check; the hashes are those of the whole flashes
    method PitL2Check(pchHash: seq<Word>, bmcHash: seq<Word>) returns (outcome: PitOutcome)
      requires page.Length == 59 && |pchHash| == 8 && |bmcHash| == 8
      modifies this`status, page
      ensures (page[..], outcome) == SealPage(old(page[..]), pchHash, bmcHash)
      ensures status == old(status) + if Has(old(page[..]), L2Enabled) && !Has(old(page[..]), L2Passed) && outcome.Passes? then {L2Bit} else {}
    {
      hide Has, With, Filled, Content;
      outcome := Passes;
      if !Has(page[..], L2Passed) {
        if Has(page[..], L2Enabled) {
          if Has(page[..], HashStored) {
            if Content(page[..], PchHash) != pchHash {
              return StaysInTmin1;
            }
            if Content(page[..], BmcHash) != bmcHash {
              return StaysInTmin1;
            }
            SetFlag(L2Passed);
            status := status + {L2Bit};
          } else {
            CopyToPage(PchHash, pchHash);
            CopyToPage(BmcHash, bmcHash);
            SetFlag(HashStored);
            return StaysInTmin1;
          }
        }
      }
    }

    method PerformPitProtection(id: seq<Word>, pchHash: seq<Word>, bmcHash: seq<Word>) returns (outcome: PitOutcome)
      requires page.Length == 59 && |id| == 2 && |pchHash| == 8 && |bmcHash| == 8
      modifies this`status, page
      ensures (page[..], outcome) == PitPage(old(page[..]), id, pchHash, bmcHash)
      ensures status == old(status) + if Has(old(page[..]), L2Enabled) && !Has(old(page[..]), L2Passed) && outcome.Passes? then {L2Bit} else {}
    {
      hide SealPage, Has, Content;
      outcome := PitL1Check(id);
      if outcome.Passes? {
        outcome := PitL2Check(pchHash, bmcHash);
      }
    }
  }

  // The words a provisioning command takes from the FIFO
  function CommandData(cmd: nat, fifo: seq<bv8>, idle: bv8): (data: seq<Word>)
    ensures Written(cmd).Some? ==> |data| == Written(cmd).value.Words()
  {
    if Written(cmd).Some? then WordsOf(Taken(fifo, 4 * Written(cmd).value.Words(), idle)) else []
  }

  // A read command leaves the field in the FIFO, an accepted write command leaves it empty
  function FifoAfter(u: Mem, cmd: nat, fifo: seq<bv8>): seq<bv8>
    requires IsPage(u)
  {
    if Reported(cmd).Some? then BytesOf(Content(u, Reported(cmd).value))
    else if Written(cmd).Some? && !Has(u, Locked) && !Has(u, Written(cmd).value.Done()) then []
    else fifo
  }

  // The commands that are answered with an error
  predicate Rejected(u: Mem, cmd: nat)
    requires IsPage(u)
  {
    && Reported(cmd).None?
    && (Has(u, Locked)
        || (Written(cmd).Some? && Has(u, Written(cmd).value.Done()))
        || (cmd == 0x10 && !Has(u, PitIdDone))
        || (cmd == 0x11 && (Has(u, L2Enabled) || !Has(u, L1Enabled)))
        || (cmd == 7 && !Provisioned(u)))
  }

  // What the device does besides: command 0xE switches it to its active image, and command 0x11 resets the
  // platform so that its flashes are sealed
  function EffectOf(u: Mem, cmd: nat): Effect
    requires IsPage(u)
  {
    if Reported(cmd).Some? || Has(u, Locked) then Nothing
    else if cmd == 0xE then ReconfigureToCfm1
    else if cmd == 0x11 && Has(u, L1Enabled) && !Has(u, L2Enabled) then PlatformReset
    else Nothing
  }

  // The status register follows the page: an erase clears its bits, a command that completes provisioning, is
  // the lock or enables the first check sets one
  ghost predicate StatusFollows(u: Mem, r: Mem, cmd: nat, was: set<Status>, now: set<Status>)
    requires IsPage(u) && IsPage(r)
  {
    var open, erased := Reported(cmd).None? && !Has(u, Locked), cmd == 0 && !Has(u, Locked);
    && (ProvisionedBit in now <==> (ProvisionedBit in was && !erased) || (open && Provisioned(r)))
    && (L1Bit in now <==> (L1Bit in was && !erased) || (open && cmd == 0x10 && Has(u, PitIdDone)))
    && (L2Bit in now <==> L2Bit in was && !erased)
    && (LockedBit in now <==> LockedBit in was || (open && cmd == 7 && Provisioned(u)))
  }

  lemma StatusIs(u: Mem, r: Mem, cmd: nat, was: set<Status>, now: set<Status>)
    requires IsPage(u) && IsPage(r)
    ensures StatusFollows(u, r, cmd, was, now)
       <==> var open, erased := Reported(cmd).None? && !Has(u, Locked), cmd == 0 && !Has(u, Locked);
            && (ProvisionedBit in now <==> (ProvisionedBit in was && !erased) || (open && Provisioned(r)))
            && (L1Bit in now <==> (L1Bit in was && !erased) || (open && cmd == 0x10 && Has(u, PitIdDone)))
            && (L2Bit in now <==> L2Bit in was && !erased)
            && (LockedBit in now <==> LockedBit in was || (open && cmd == 7 && Provisioned(u)))
  {
    hide Has, Provisioned, Reported;
  }

  lemma EffectCases(u: Mem, cmd: nat)
    requires IsPage(u)
    ensures EffectOf(u, cmd) == if Reported(cmd).Some? || Has(u, Locked) then Nothing
                                else if cmd == 0xE then ReconfigureToCfm1
                                else if cmd == 0x11 && Has(u, L1Enabled) && !Has(u, L2Enabled) then PlatformReset else Nothing
    ensures Reported(0).None? && Reported(7).None? && Reported(0xE).None? && Reported(0x10).None? && Reported(0x11).None?
  {
    hide Has;
  }

  // Enabling a check and locking leave a page provisioned or not; an erased one is not
  lemma StaysProvisioned(u: Mem, pchSvn: nat, bmcSvn: nat)
    requires IsPage(u)
    ensures Provisioned(With(u, L1Enabled)) <==> Provisioned(u)
    ensures Provisioned(With(u, L2Enabled)) <==> Provisioned(u)
    ensures Provisioned(LockedPage(u, pchSvn, bmcSvn)) <==> Provisioned(u)
    ensures !Provisioned(ErasedPage())
  {
    forall g: Flag, h: Flag ensures Has(With(u, g), h) <==> Has(u, h) || g == h { WithFlag(u, g, h); }
    LockingKeeps(u, pchSvn, bmcSvn);
    forall g: Flag ensures Has(With(u, Locked), g) <==> Has(LockedPage(u, pchSvn, bmcSvn), g) {
      SameHeadSame(With(u, Locked), LockedPage(u, pchSvn, bmcSvn), g, RootKey);
      hide SameHead, Has, With, LockedPage;
    }
    ErasedIsGood();
    hide Has, With, LockedPage;
  }

  // What each kind of command amounts to
  lemma CommandCases(u: Mem, cmd: nat, fifo: seq<bv8>, idle: bv8, pchSvn: nat, bmcSvn: nat)
    requires IsPage(u)
    ensures var r, q, no := CommandPage(u, cmd, CommandData(cmd, fifo, idle), pchSvn, bmcSvn), FifoAfter(u, cmd, fifo), Rejected(u, cmd);
            if Reported(cmd).Some? then r == u && !no && q == BytesOf(Content(u, Reported(cmd).value))
            else if Has(u, Locked) then r == u && no && q == fifo
            else if cmd == 0 then Written(cmd).None? && r == ErasedPage() && !no && q == fifo
            else if Written(cmd).Some? then
              var fd := Written(cmd).value;
              && cmd != 7 && cmd != 0x10 && cmd != 0x11 && no == Has(u, fd.Done())
              && r == (if Has(u, fd.Done()) then u
                       else Filled(With(u, fd.Done()), fd, WordsOf(Taken(fifo, 4 * fd.Words(), idle))))
              && q == (if Has(u, fd.Done()) then fifo else [])
            else
              && q == fifo
              && (cmd == 0x10 ==> r == (if Has(u, PitIdDone) then With(u, L1Enabled) else u) && no == !Has(u, PitIdDone))
              && (cmd == 0x11 ==> r == (if Has(u, L2Enabled) || !Has(u, L1Enabled) then u else With(u, L2Enabled))
                                  && no == (Has(u, L2Enabled) || !Has(u, L1Enabled)))
              && (cmd == 7 ==> r == (if Provisioned(u) then LockedPage(u, pchSvn, bmcSvn) else u) && no == !Provisioned(u))
              && (cmd != 7 && cmd != 0x10 && cmd != 0x11 ==> r == u && !no)
  {
    hide Has, Provisioned, Content, BytesOf, With, Filled, LockedPage, WordsOf;
  }

  lemma Pages()
    ensures forall u: Mem :: IsPage(u) <==> |u| == 59
  {
  }

  function Head(q: seq<bv8>, idle: bv8): bv8 { if q == [] then idle else q[0] }

  function Tail(q: seq<bv8>): seq<bv8> { if q == [] then q else q[1..] }

  function Dropped(q: seq<bv8>, n: nat): seq<bv8> { if n <= |q| then q[n..] else [] }

  // The first n bytes read from a FIFO
  function Taken(q: seq<bv8>, n: nat, idle: bv8): (r: seq<bv8>)
    ensures |r| == n
  {
    seq(n, (i: nat) requires i < n => if i < |q| then q[i] else idle)
  }

  function BytesOf(ws: seq<Word>): (b: seq<bv8>)
    ensures |b| == 4 * |ws|
  {
    seq(4 * |ws|, (i: nat) requires i < 4 * |ws| => ByteAt(ws, i))
  }

  // What was put into the FIFO for a field is what its read command puts there
  lemma ReadsBack(b: seq<bv8>)
    requires |b| % 4 == 0
    ensures BytesOf(WordsOf(b)) == b
  {
    forall i: nat | i < |b| ensures BytesOf(WordsOf(b))[i] == b[i] {
      BytesOfWords(b, i);
      hide ByteAt, WordsOf;
    }
    hide ByteAt, WordsOf;
    assert 4 * (|b| / 4) == |b|;
  }

  // After any run, a read command reports the bytes of the first accepted command since the last erase
  lemma FirstAcceptedReadsBack(es: seq<Event>, fd: Field, cmd: nat, bytes: seq<bv8>, fifo: seq<bv8>)
    requires ValidRun(es) && ByCommand(fd) && Reported(cmd) == Some(fd) && |bytes| == 4 * fd.Words()
    requires FirstAccepted(es, fd) == Some(WordsOf(bytes))
    ensures FifoAfter(PageAfter(es), cmd, fifo) == bytes
  {
    RunKeepsProvisioning(es, fd);
    ReadsBack(bytes);
    hide Has, Content, BytesOf, WordsOf, FirstAccepted, PageAfter;
  }
}
