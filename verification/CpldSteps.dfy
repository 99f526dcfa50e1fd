/**
 What a CPLD update writes, one flash command a step: the BMC flash, the provisioned data page, the
 update status word and the CFM1 image (fw/code/inc/cpld_update.h, cpld_recovery.h). Power can be
 lost between any two steps.
 */
module CpldSteps {
  import opened NorFlash
  import opened Sequences
  import opened SpiRwUtils

  // ---------------------------------------------------------------- what is stored

  // The BMC flash, the provisioned data page, the update status word and the CFM1 image
  datatype Store = Store(bmc: Mem, page: Mem, status: Word, cfm1: Mem)

  datatype Step = Bmc(op: Op) | Page(op: Op) | EraseStatus | ClearStatus | EraseTop | EraseBottom | Cfm(at: nat, data: Word)

  // top is the number of words in the sector that holds the first half of CFM1
  function ApplyStep(s: Store, e: Step, top: nat): (r: Store)
    ensures |r.bmc| == |s.bmc| && |r.page| == |s.page| && |r.cfm1| == |s.cfm1|
  {
    match e
    case Bmc(op) => s.(bmc := Apply(s.bmc, op))
    case Page(op) => s.(page := Apply(s.page, op))
    case EraseStatus => s.(status := ERASED)
    case ClearStatus => s.(status := Nor(s.status, 0))
    case EraseTop => s.(cfm1 := HalfErased(s.cfm1, 0, top))
    case EraseBottom => s.(cfm1 := HalfErased(s.cfm1, top, |s.cfm1|))
    case Cfm(at, data) => s.(cfm1 := Apply(s.cfm1, Program(at, data)))
  }

  function HalfErased(c: Mem, lo: nat, hi: nat): (r: Mem)
    ensures |r| == |c|
  {
    seq(|c|, (i: nat) requires i < |c| => if lo <= i < hi then ERASED else c[i])
  }

  function Steps(s: Store, t: seq<Step>, top: nat): (r: Store)
    ensures |r.bmc| == |s.bmc| && |r.page| == |s.page| && |r.cfm1| == |s.cfm1|
    decreases |t|
  {
    if t == [] then s else Steps(ApplyStep(s, t[0], top), t[1..], top)
  }

  lemma {:induction false} StepsConcat(s: Store, a: seq<Step>, b: seq<Step>, top: nat)
    ensures Steps(s, a + b, top) == Steps(Steps(s, a, top), b, top)
    decreases |a|
  {
    if a == [] {
      assert a + b == b;
    } else {
      assert (a + b)[1..] == a[1..] + b;
      StepsConcat(ApplyStep(s, a[0], top), a[1..], b, top);
    }
  }

  // ---------------------------------------------------------------- rewriting CFM1

  // The words i, i-1, ..., 0 of an image
  function Backward(img: Mem, i: nat): seq<Step>
    requires i < |img|
  {
    [Cfm(i, img[i])] + if i == 0 then [] else Backward(img, i - 1)
  }

  function RewriteCfm1(img: Mem): seq<Step>
    requires img != []
  {
    [EraseTop, EraseBottom] + Backward(img, |img| - 1)
  }

  // An image of which the words from i on have been written over erased sectors
  function Tail(img: Mem, i: nat): (r: Mem)
    ensures |r| == |img|
  {
    seq(|img|, (k: nat) requires k < |img| => if i <= k then img[k] else ERASED)
  }

  lemma {:induction false} BackwardPrefix(s: Store, img: Mem, i: nat, k: nat, top: nat)
    requires i < |img| && s.cfm1 == Tail(img, i + 1) && k <= i + 1
    ensures |Backward(img, i)| == i + 1
    ensures Steps(s, Backward(img, i)[..k], top) == s.(cfm1 := Tail(img, i + 1 - k))
    decreases i
  {
    hide *;
    BackwardLength(img, i);
    StepsHead(s, Backward(img, i)[..k], top);
    if k > 0 {
      BackwardHead(s, img, i, top);
      if i > 0 {
        assert Backward(img, i)[..k][1..] == Backward(img, i - 1)[..k - 1];
        BackwardPrefix(s.(cfm1 := Tail(img, i)), img, i - 1, k - 1, top);
      } else {
        StepsHead(s.(cfm1 := Tail(img, 0)), Backward(img, i)[..k][1..], top);
      }
    }
  }

  lemma StepsHead(s: Store, t: seq<Step>, top: nat)
    ensures Steps(s, t, top) == if t == [] then s else Steps(ApplyStep(s, t[0], top), t[1..], top)
  {
  }

  lemma BackwardHead(s: Store, img: Mem, i: nat, top: nat)
    requires i < |img| && s.cfm1 == Tail(img, i + 1)
    ensures |Backward(img, i)| > 0 && ApplyStep(s, Backward(img, i)[0], top) == s.(cfm1 := Tail(img, i))
    ensures i > 0 ==> Backward(img, i)[1..] == Backward(img, i - 1)
  {
    TailStep(img, i, s.cfm1);
    hide Tail, Apply;
  }

  lemma {:induction false} BackwardLength(img: Mem, i: nat)
    requires i < |img|
    ensures |Backward(img, i)| == i + 1
  {
    if i > 0 {
      BackwardLength(img, i - 1);
    }
  }

  lemma TailStep(img: Mem, i: nat, c: Mem)
    requires i < |img| && c == Tail(img, i + 1)
    ensures Apply(c, Program(i, img[i])) == Tail(img, i)
  {
    ErasedTakesAnyWord(img[i]);
    hide Nor;
  }

  lemma BothHalvesErased(img: Mem, c: Mem, top: nat)
    requires |c| == |img| && top <= |img|
    ensures HalfErased(HalfErased(c, 0, top), top, |c|) == Tail(img, |img|)
  {
  }

  // Power loss while CFM1 is rewritten leaves the old image untouched, or an image whose first word
  // is erased, or the complete new image
  lemma RewritePrefix(s: Store, img: Mem, k: nat, top: nat)
    requires img != [] && |s.cfm1| == |img| && 0 < top <= |img| && k <= |RewriteCfm1(img)|
    ensures |RewriteCfm1(img)| == |img| + 2
    ensures var r := Steps(s, RewriteCfm1(img)[..k], top);
            && r == s.(cfm1 := r.cfm1)
            && if k == 0 then r.cfm1 == s.cfm1
               else if k < |img| + 2 then r.cfm1[0] == ERASED
               else r.cfm1 == img
  {
    BackwardLength(img, |img| - 1);
    RewriteIs(img);
    hide *;
    var t := RewriteCfm1(img);
    if k == 0 {
      StepsHead(s, t[..0], top);
    } else if k == 1 {
      assert t[..1] == [EraseTop];
      OneStep(s, EraseTop, top);
      TopErased(s, top);
    } else {
      RewriteBack(s, img, k - 2, |img| - (k - 2), top);
      TailEnds(img, |img| - (k - 2));
    }
  }

  lemma RewriteBack(s: Store, img: Mem, done: nat, left: nat, top: nat)
    requires img != [] && |s.cfm1| == |img| && top <= |img| && done + left == |img|
    ensures |RewriteCfm1(img)| == |img| + 2
    ensures Steps(s, RewriteCfm1(img)[..2 + done], top) == s.(cfm1 := Tail(img, left))
  {
    BackwardLength(img, |img| - 1);
    RewriteIs(img);
    hide *;
    PrefixOfSum([EraseTop, EraseBottom], Backward(img, |img| - 1), done);
    StepsConcat(s, [EraseTop, EraseBottom], Backward(img, |img| - 1)[..done], top);
    Erased(s, img, top);
    BackwardPrefix(s.(cfm1 := Tail(img, |img|)), img, |img| - 1, done, top);
  }

  lemma RewriteIs(img: Mem)
    requires img != []
    ensures RewriteCfm1(img) == [EraseTop, EraseBottom] + Backward(img, |img| - 1)
  {
  }

  lemma TopErased(s: Store, top: nat)
    requires 0 < top <= |s.cfm1|
    ensures var r := ApplyStep(s, EraseTop, top); r == s.(cfm1 := r.cfm1) && r.cfm1[0] == ERASED
  {
  }

  lemma Erased(s: Store, img: Mem, top: nat)
    requires |s.cfm1| == |img| && top <= |img|
    ensures Steps(s, [EraseTop, EraseBottom], top) == s.(cfm1 := Tail(img, |img|))
  {
    TwoSteps(s, EraseTop, EraseBottom, top);
    BothHalvesErased(img, s.cfm1, top);
    hide Steps, HalfErased, Tail;
  }

  lemma TailEnds(img: Mem, i: nat)
    requires img != [] && i <= |img|
    ensures (i == 0 ==> Tail(img, i) == img) && (i > 0 ==> Tail(img, i)[0] == ERASED)
  {
  }

  lemma OneStep(s: Store, e: Step, top: nat)
    ensures Steps(s, [e], top) == ApplyStep(s, e, top)
  {
    assert [e][1..] == [];
  }

  lemma TwoSteps(s: Store, a: Step, b: Step, top: nat)
    ensures Steps(s, [a, b], top) == ApplyStep(ApplyStep(s, a, top), b, top)
  {
    assert [a, b][1..] == [b];
    OneStep(ApplyStep(s, a, top), b, top);
  }

  // ---------------------------------------------------------------- steps on one part

  function OnBmc(ops: seq<Op>): (t: seq<Step>)
    ensures |t| == |ops|
  {
    seq(|ops|, (i: nat) requires i < |ops| => Bmc(ops[i]))
  }

  function OnPage(ops: seq<Op>): (t: seq<Step>)
    ensures |t| == |ops|
  {
    seq(|ops|, (i: nat) requires i < |ops| => Page(ops[i]))
  }

  lemma {:induction false} BmcSteps(s: Store, ops: seq<Op>, top: nat)
    ensures Steps(s, OnBmc(ops), top) == s.(bmc := Run(s.bmc, ops))
    decreases |ops|
  {
    if ops != [] {
      var next := s.(bmc := Apply(s.bmc, ops[0]));
      assert OnBmc(ops)[1..] == OnBmc(ops[1..]);
      hide Apply;
      BmcSteps(next, ops[1..], top);
    }
  }

  lemma {:induction false} PageSteps(s: Store, ops: seq<Op>, top: nat)
    ensures Steps(s, OnPage(ops), top) == s.(page := Run(s.page, ops))
    decreases |ops|
  {
    if ops != [] {
      var next := s.(page := Apply(s.page, ops[0]));
      assert OnPage(ops)[1..] == OnPage(ops[1..]);
      hide Apply;
      PageSteps(next, ops[1..], top);
    }
  }

  lemma OnBmcPrefix(ops: seq<Op>, k: nat)
    requires k <= |ops|
    ensures OnBmc(ops)[..k] == OnBmc(ops[..k]) && OnPage(ops)[..k] == OnPage(ops[..k])
  {
  }

  // A prefix of two phases is a prefix of the first, or the first and a prefix of the second
  lemma PhasePrefix(s: Store, a: seq<Step>, b: seq<Step>, k: nat, top: nat)
    requires k <= |a + b|
    ensures k <= |a| ==> (a + b)[..k] == a[..k]
    ensures k >= |a| ==> k - |a| <= |b| && Steps(s, (a + b)[..k], top) == Steps(Steps(s, a, top), b[..k - |a|], top)
  {
    hide Steps;
    if k >= |a| {
      PrefixOfSum(a, b, k - |a|);
      StepsConcat(s, a, b[..k - |a|], top);
    } else {
      assert (a + b)[..k] == a[..k];
    }
    if k == |a| {
      assert (a + b)[..k] == a == a[..k];
    }
  }

  // ---------------------------------------------------------------- the on-chip flash in place

  class OnChipFlash {
    const page: array<Word>
    const cfm1: array<Word>
    const top: nat
    var status: Word
    ghost const origin: Store
    ghost var log: seq<Step>

    ghost function Now(): Store
      reads this, page, cfm1
    {
      Store(origin.bmc, page[..], status, cfm1[..])
    }

    // The contents are the original ones with the logged steps carried out
    ghost predicate Valid()
      reads this, page, cfm1
    {
      page != cfm1 && top <= cfm1.Length && Now() == Steps(origin, log, top) && forall e | e in log :: !e.Bmc?
    }

    ghost predicate Did(before: Store, steps: seq<Step>, was: seq<Step>)
      reads this, page, cfm1
    {
      Valid() && log == was + steps && Now() == Steps(before, steps, top)
    }

    method EraseSector(id: nat)
      requires Valid() && id in {2, 3, 4}
      modifies this, cfm1
      ensures Did(old(Now()), [if id == 2 then EraseStatus else if id == 3 then EraseTop else EraseBottom], old(log))
    {
      ghost var e := if id == 2 then EraseStatus else if id == 3 then EraseTop else EraseBottom;
      if id == 2 {
        status := ERASED;
      } else if id == 3 {
        EraseWords(0, top);
      } else {
        EraseWords(top, cfm1.Length);
      }
      log := log + [e];
      StepsSnoc(origin, old(log), e, top);
      OneStep(old(Now()), e, top);
    }

    method EraseWords(lo: nat, hi: nat)
      requires lo <= hi <= cfm1.Length && page != cfm1
      modifies cfm1
      ensures cfm1[..] == HalfErased(old(cfm1[..]), lo, hi)
    {
      forall i | lo <= i < hi {
        cfm1[i] := ERASED;
      }
    }

    method StoreCfm(at: nat, data: Word)
      requires Valid() && at < cfm1.Length
      modifies this`log, cfm1
      ensures Did(old(Now()), [Cfm(at, data)], old(log))
    {
      cfm1[at] := Nor(cfm1[at], data);
      log := log + [Cfm(at, data)];
      StepsSnoc(origin, old(log), Cfm(at, data), top);
      OneStep(old(Now()), Cfm(at, data), top);
      hide Nor;
    }

    // set_cpld_rc_update_in_progress_ufm_flag
    method ClearStatusWord()
      requires Valid()
      modifies this
      ensures Did(old(Now()), [ClearStatus], old(log))
    {
      status := Nor(status, 0);
      log := log + [ClearStatus];
      StepsSnoc(origin, old(log), ClearStatus, top);
      OneStep(old(Now()), ClearStatus, top);
      hide Nor;
    }
  }

  lemma StepsSnoc(s: Store, a: seq<Step>, e: Step, top: nat)
    ensures Steps(s, a + [e], top) == ApplyStep(Steps(s, a, top), e, top)
  {
    StepsConcat(s, a, [e], top);
    OneStep(Steps(s, a, top), e, top);
  }
}
