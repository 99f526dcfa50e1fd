/**
 Single bits of 32-bit words: the bridge between masks built by shifting and bits by position.
 */
module Bits {
  import opened NorFlash

  // 1 << k
  function Mask(k: nat): Word
    requires k < 32
  {
    if k == 0 then 1 else Mask(k - 1) << 1
  }

  predicate Bit(w: Word, k: nat)
    requires k < 32
  {
    w & Mask(k) != 0
  }

  // The bits below position k
  function Below(k: nat): Word
    requires k <= 32
  {
    if k == 0 then 0 else Below(k - 1) | Mask(k - 1)
  }

  lemma MaskTimes16(k: nat)
    requires k + 4 < 32
    ensures Mask(k + 4) == Mask(k) << 4
  {
    assert Mask(k + 4) == Mask(k + 2) << 2;
  }

  lemma {:induction false} MaskNonzero(k: nat)
    requires k < 32
    ensures Mask(k) != 0
  {
    MaskTimes16(0); MaskTimes16(4); MaskTimes16(8); MaskTimes16(12);
    MaskTimes16(16); MaskTimes16(20); MaskTimes16(24);
    assert Mask(28) == 0x1000_0000 && Mask(31) == Mask(29) << 2;
    if Mask(k) == 0 {
      ZeroStaysZero(k, 31 - k);
    }
  }

  lemma {:induction false} ZeroStaysZero(k: nat, n: nat)
    requires k + n < 32 && Mask(k) == 0
    ensures Mask(k + n) == 0
  {
    if n > 0 {
      ZeroStaysZero(k, n - 1);
    }
  }

  lemma {:induction false} MasksDisjoint(j: nat, k: nat)
    requires j < k < 32
    ensures Mask(j) & Mask(k) == 0
  {
    if j == 0 {
      ShiftedIsEven(Mask(k - 1));
    } else {
      MasksDisjoint(j - 1, k - 1);
      ShiftedAnd(Mask(j - 1), Mask(k - 1));
    }
  }

  lemma ShiftedIsEven(x: Word)
    ensures 1 & (x << 1) == 0
  {
  }

  lemma ShiftedAnd(x: Word, y: Word)
    requires x & y == 0
    ensures (x << 1) & (y << 1) == 0
  {
  }

  lemma BitOfOr(w: Word, v: Word, k: nat)
    requires k < 32
    ensures Bit(w | v, k) <==> Bit(w, k) || Bit(v, k)
  {
    hide Mask;
    assert (w | v) & Mask(k) == (w & Mask(k)) | (v & Mask(k)) by { Distribute(w, v, Mask(k)); }
  }

  lemma Distribute(w: Word, v: Word, m: Word)
    ensures (w | v) & m == (w & m) | (v & m)
    ensures (w | v) & m != 0 <==> w & m != 0 || v & m != 0
  {
  }

  lemma MasksApart(j: nat, k: nat)
    requires j < 32 && k < 32 && j != k
    ensures Mask(j) & Mask(k) == 0
  {
    hide Mask;
    if j < k {
      MasksDisjoint(j, k);
    } else {
      MasksDisjoint(k, j);
      AndCommutes(Mask(j), Mask(k));
    }
  }

  lemma AndCommutes(x: Word, y: Word)
    ensures x & y == y & x && x & x == x
  {
  }

  lemma BitOfMask(j: nat, k: nat)
    requires j < 32 && k < 32
    ensures Bit(Mask(j), k) <==> j == k
  {
    hide Mask;
    if j == k {
      MaskNonzero(j);
      AndCommutes(Mask(j), Mask(j));
    } else {
      MasksApart(j, k);
    }
  }

  lemma BitOfOnes(k: nat)
    requires k < 32
    ensures Bit(0xFFFF_FFFF, k) && !Bit(0, k)
  {
    hide Mask;
    MaskNonzero(k);
  }

  // The bits below k, as the source computes them
  lemma {:induction false} BelowIsMaskMinusOne(k: nat)
    requires k < 32
    ensures Below(k) == Mask(k) - 1 && Mask(k) & (Mask(k) - 1) == 0
  {
    if k > 0 {
      BelowIsMaskMinusOne(k - 1);
      MaskNonzero(k);
      hide Mask, Below;
      NextPower(Mask(k - 1));
    }
  }

  lemma NextPower(x: Word)
    requires x & (x - 1) == 0 && x << 1 != 0
    ensures (x - 1) | x == (x << 1) - 1 && (x << 1) & ((x << 1) - 1) == 0
  {
  }

  lemma {:induction false} BitOfBelow(k: nat, j: nat)
    requires k <= 32 && j < 32
    ensures Bit(Below(k), j) <==> j < k
  {
    if k == 0 {
      BitOfOnes(j);
    } else {
      BitOfBelow(k - 1, j);
      BitOfMask(k - 1, j);
      var b, m := Below(k - 1), Mask(k - 1);
      assert Below(k) == b | m;
      hide Mask, Below;
      BitOfOr(b, m, j);
    }
  }

  // A single-bit mask is either inside a word or apart from it
  lemma PowerSplits(m: Word, v: Word)
    requires m & (m - 1) == 0
    ensures v & m == 0 || v & m == m
  {
  }

  // w & ~v
  function Without(w: Word, v: Word): Word { w & !v }

  lemma BitOfWithout(w: Word, v: Word, j: nat)
    requires j < 32
    ensures Bit(Without(w, v), j) <==> Bit(w, j) && !Bit(v, j)
  {
    BelowIsMaskMinusOne(j);
    WithoutMeets(w, v, Mask(j));
    assert forall x: Word :: Bit(x, j) <==> Meets(x, Mask(j));
    hide Mask, Without, Meets, Bit;
  }

  // w & ~(1 << j)
  function Cleared(w: Word, j: nat): Word
    requires j < 32
  {
    Without(w, Mask(j))
  }

  lemma BitOfCleared(w: Word, j: nat, k: nat)
    requires j < 32 && k < 32
    ensures Bit(Cleared(w, j), k) <==> Bit(w, k) && j != k
  {
    BitOfWithout(w, Mask(j), k);
    BitOfMask(j, k);
    hide Mask, Without, Bit;
  }

  // w & ~((1 << k) - 1)
  function FromUp(w: Word, k: nat): Word
    requires k < 32
  {
    Without(w, Mask(k) - 1)
  }

  lemma BitOfFromUp(w: Word, k: nat, j: nat)
    requires k < 32 && j < 32
    ensures Bit(FromUp(w, k), j) <==> Bit(w, j) && j >= k
  {
    BitOfBelow(k, j);
    BelowIsMaskMinusOne(k);
    BitOfWithout(w, Below(k), j);
    hide Mask, Without, Bit;
  }

  // Some bit of the mask is set
  predicate Meets(w: Word, m: Word) { w & m != 0 }

  lemma WithoutMeets(w: Word, v: Word, m: Word)
    requires m & (m - 1) == 0
    ensures Meets(Without(w, v), m) <==> Meets(w, m) && !Meets(v, m)
  {
    PowerSplits(m, v);
    if v & m == 0 {
      AndNotOutside(w, v, m);
    } else {
      AndNotInside(w, v, m);
    }
  }

  lemma AndNotOutside(w: Word, v: Word, m: Word)
    requires v & m == 0
    ensures (w & !v) & m == w & m
  {
  }

  lemma AndNotInside(w: Word, v: Word, m: Word)
    requires v & m == m
    ensures (w & !v) & m == 0
  {
  }

  lemma BitOfNor(w: Word, v: Word, j: nat)
    requires j < 32
    ensures Bit(Nor(w, v), j) <==> Bit(w, j) && Bit(v, j)
  {
    BelowIsMaskMinusOne(j);
    NorMeets(w, v, Mask(j));
    assert forall x: Word :: Bit(x, j) <==> Meets(x, Mask(j));
    hide Mask, Nor, Meets, Bit;
  }

  lemma NorMeets(w: Word, v: Word, m: Word)
    requires m & (m - 1) == 0
    ensures Meets(Nor(w, v), m) <==> Meets(w, m) && Meets(v, m)
  {
    PowerSplits(m, v);
    if v & m == 0 {
      AndOutside(w, v, m);
    } else {
      AndInside(w, v, m);
    }
  }

  lemma AndOutside(w: Word, v: Word, m: Word)
    requires v & m == 0
    ensures (w & v) & m == 0
  {
  }

  lemma AndInside(w: Word, v: Word, m: Word)
    requires v & m == m
    ensures (w & v) & m == w & m
  {
  }

  // ---------------------------------------------------------------- words with the same bits

  // Two words agree inside a mask
  predicate Agree(a: Word, b: Word, m: Word) { a & m == b & m }

  predicate IsSingle(m: Word) { m & (m - 1) == 0 }

  function Union(x: Word, m: Word): Word { x | m }

  lemma AgreeStep(a: Word, b: Word, x: Word, m: Word)
    requires IsSingle(m) && (Meets(a, m) <==> Meets(b, m)) && Agree(a, b, x)
    ensures Agree(a, b, Union(x, m))
  {
    hide *;
    SameSingle(a, b, m);
    AgreeBoth(a, b, x, m);
  }

  lemma SameSingle(a: Word, b: Word, m: Word)
    requires IsSingle(m) && (Meets(a, m) <==> Meets(b, m))
    ensures Agree(a, b, m)
  {
    PowerSplits(m, a);
    PowerSplits(m, b);
  }

  lemma AgreeBoth(a: Word, b: Word, x: Word, m: Word)
    requires Agree(a, b, x) && Agree(a, b, m)
    ensures Agree(a, b, Union(x, m))
  {
    AndOfOr(a, x, m);
    AndOfOr(b, x, m);
  }

  lemma AndOfOr(a: Word, x: Word, m: Word)
    ensures a & (x | m) == (a & x) | (a & m)
  {
  }

  lemma BitMeets(a: Word, k: nat)
    requires k < 32
    ensures Bit(a, k) <==> Meets(a, Mask(k))
  {
  }

  lemma BelowStep(k: nat)
    requires 0 < k <= 32
    ensures Below(k) == Union(Below(k - 1), Mask(k - 1)) && IsSingle(Mask(k - 1))
  {
    BelowIsMaskMinusOne(k - 1);
    hide Mask;
  }

  lemma BelowAgree(a: Word, b: Word, k: nat)
    requires 0 < k <= 32 && (Bit(a, k - 1) <==> Bit(b, k - 1)) && Agree(a, b, Below(k - 1))
    ensures Agree(a, b, Below(k))
  {
    hide *;
    BitMeets(a, k - 1);
    BitMeets(b, k - 1);
    BelowStep(k);
    AgreeStep(a, b, Below(k - 1), Mask(k - 1));
  }

  lemma {:induction false} SameBelow(a: Word, b: Word, k: nat)
    requires k <= 32 && forall j: nat | j < k :: Bit(a, j) <==> Bit(b, j)
    ensures Agree(a, b, Below(k))
  {
    hide *;
    if k == 0 {
      AgreeNowhere(a, b);
    } else {
      assert Bit(a, k - 1) <==> Bit(b, k - 1);
      SameBelow(a, b, k - 1);
      BelowAgree(a, b, k);
    }
  }

  lemma AgreeNowhere(a: Word, b: Word)
    ensures Agree(a, b, Below(0))
  {
  }

  lemma AllBelow()
    ensures Below(32) == 0xFFFF_FFFF
  {
    MaskTimes16(0); MaskTimes16(4); MaskTimes16(8); MaskTimes16(12);
    MaskTimes16(16); MaskTimes16(20); MaskTimes16(24);
    assert Mask(28) == 0x1000_0000 && Mask(31) == Mask(29) << 2;
    BelowIsMaskMinusOne(31);
    assert Below(32) == Below(31) | Mask(31);
  }

  lemma SameBits(a: Word, b: Word)
    requires forall j: nat | j < 32 :: Bit(a, j) <==> Bit(b, j)
    ensures a == b
  {
    SameBelow(a, b, 32);
    AllBelow();
    AgreeEverywhere(a, b);
    hide *;
  }

  lemma AgreeEverywhere(a: Word, b: Word)
    ensures Agree(a, b, 0xFFFF_FFFF) ==> a == b
  {
  }

  // ---------------------------------------------------------------- bytes of words

  // Byte lane of a little-endian word
  function Lane(w: Word, lane: nat): bv8 {
    match lane
    case 0 => (w & 0xFF) as bv8
    case 1 => ((w >> 8) & 0xFF) as bv8
    case 2 => ((w >> 16) & 0xFF) as bv8
    case _ => (w >> 24) as bv8
  }

  // Byte i of words as they lie in memory
  function ByteAt(ws: seq<Word>, i: nat): bv8
    requires i < 4 * |ws|
  {
    Lane(ws[i / 4], i % 4)
  }

  // A byte buffer read through a word pointer
  function WordsOf(b: seq<bv8>): (r: seq<Word>)
    requires |b| % 4 == 0
  {
    seq(|b| / 4, (i: nat) requires i < |b| / 4 => WordOf(b[4 * i], b[4 * i + 1], b[4 * i + 2], b[4 * i + 3]))
  }

  function WordOf(b0: bv8, b1: bv8, b2: bv8, b3: bv8): Word {
    b0 as Word | (b1 as Word << 8) | (b2 as Word << 16) | (b3 as Word << 24)
  }

  lemma LanesOfWord(b0: bv8, b1: bv8, b2: bv8, b3: bv8)
    ensures var w := WordOf(b0, b1, b2, b3);
            Lane(w, 0) == b0 && Lane(w, 1) == b1 && Lane(w, 2) == b2 && Lane(w, 3) == b3
  {
  }

  // The bytes of a buffer are the bytes of its words
  lemma BytesOfWords(b: seq<bv8>, i: nat)
    requires |b| % 4 == 0 && i < |b|
    ensures i < 4 * |WordsOf(b)| && ByteAt(WordsOf(b), i) == b[i]
  {
    var j := i / 4;
    LanesOfWord(b[4 * j], b[4 * j + 1], b[4 * j + 2], b[4 * j + 3]);
    hide Lane, WordOf;
    assert i == 4 * j || i == 4 * j + 1 || i == 4 * j + 2 || i == 4 * j + 3;
  }
}
