/** 32-bit words as C's `int` and `unsigned int` hold them, read bit by bit.
    Facts about bit vectors are proved for a mask m and then used at m == Mask(k). */
module Bits {

  type word = bv32

  const ZERO: word := 0
  const ONE: word := 1
  const ONES: word := 0xFFFF_FFFF

  // C's operators &, |, ~, << 1 and >> 1.

  function And(a: word, b: word): word { a & b }

  function Or(a: word, b: word): word { a | b }

  function Not(a: word): word { !a }

  function Shl(a: word): word { a << 1 }

  function Shr(a: word): word { a >> 1 }

  /** Comparison of `unsigned int`. */
  predicate Below(a: word, b: word) { a < b }

  /** The word with only bit k set; like C's `s <<= 1`, it is 0 once the bit has left the word. */
  function Mask(k: nat): word {
    if k == 0 then 1 else Mask(k - 1) << 1
  }

  predicate Has(w: word, m: word) { w & m != 0 }

  predicate Bit(w: word, k: nat) { Has(w, Mask(k)) }

  /** At most one bit is set. */
  predicate AtMostOne(m: word) { m & (m - 1) == 0 }

  lemma DoubleAtMostOne(m: word)
    requires AtMostOne(m)
    ensures AtMostOne(m << 1)
  {
  }

  lemma AndAt(a: word, b: word, m: word)
    requires AtMostOne(m)
    ensures Has(a & b, m) <==> Has(a, m) && Has(b, m)
  {
    SingleAnd(a, m);
    SingleAnd(b, m);
  }

  lemma SingleAnd(a: word, m: word)
    requires AtMostOne(m)
    ensures a & m == 0 || a & m == m
  {
  }

  lemma OrAt(a: word, b: word, m: word)
    ensures Has(a | b, m) <==> Has(a, m) || Has(b, m)
  {
    Distribute(a, b, m);
    OrIsZero(a & m, b & m);
  }

  lemma Distribute(a: word, b: word, m: word)
    ensures (a | b) & m == (a & m) | (b & m)
  {
  }

  lemma OrIsZero(p: word, q: word)
    ensures p | q == 0 <==> p == 0 && q == 0
  {
  }

  lemma NotAt(a: word, m: word)
    requires AtMostOne(m) && m != 0
    ensures Has(!a, m) <==> !Has(a, m)
  {
  }

  lemma ShiftAt(a: word, m: word)
    requires m << 1 != 0 && AtMostOne(m)
    ensures Has(a << 1, m << 1) <==> Has(a, m)
  {
  }

  lemma TopMask()
    ensures Mask(31) == 0x8000_0000
  {
    assert Mask(4) == 0x10;
    assert Mask(8) == 0x100;
    assert Mask(12) == 0x1000;
    assert Mask(16) == 0x1_0000;
    assert Mask(20) == 0x10_0000;
    assert Mask(24) == 0x100_0000;
    assert Mask(28) == 0x1000_0000;
  }

  lemma MaskStaysZero(k: nat, n: nat)
    requires Mask(k) == 0 && k <= n
    ensures Mask(n) == 0
  {
  }

  lemma {:induction false} MaskAtMostOne(k: nat)
    ensures AtMostOne(Mask(k))
  {
    if k > 0 {
      MaskAtMostOne(k - 1);
      DoubleAtMostOne(Mask(k - 1));
    }
  }

  lemma MaskInWord(k: nat)
    ensures Mask(k) != 0 <==> k < 32
  {
    TopMask();
    assert Mask(32) == 0;
    if k < 32 {
      if Mask(k) == 0 {
        MaskStaysZero(k, 31);
      }
    } else {
      MaskStaysZero(32, k);
    }
  }

  lemma {:induction false} AndBit(a: word, b: word, k: nat)
    ensures Bit(And(a, b), k) <==> Bit(a, k) && Bit(b, k)
  {
    hide Mask, AtMostOne, Has;
    MaskAtMostOne(k);
    AndAt(a, b, Mask(k));
  }

  lemma {:induction false} OrBit(a: word, b: word, k: nat)
    ensures Bit(Or(a, b), k) <==> Bit(a, k) || Bit(b, k)
  {
    hide Mask, Has;
    OrAt(a, b, Mask(k));
  }

  lemma {:induction false} NotBit(a: word, k: nat)
    requires k < 32
    ensures Bit(Not(a), k) <==> !Bit(a, k)
  {
    hide Mask, AtMostOne, Has;
    MaskAtMostOne(k);
    MaskInWord(k);
    NotAt(a, Mask(k));
  }

  lemma {:induction false} ShiftBit(a: word, k: nat)
    requires k < 31
    ensures Bit(Shl(a), k + 1) <==> Bit(a, k)
  {
    hide AtMostOne, Has;
    MaskAtMostOne(k);
    MaskInWord(k + 1);
    ShiftAt(a, Mask(k));
  }

  lemma ShiftBitZero(a: word)
    ensures !Bit(Shl(a), 0)
  {
  }

  lemma ShlZero()
    ensures Shl(ZERO) == ZERO
  {
  }

  lemma ZeroHasNoBit(k: nat)
    ensures !Bit(ZERO, k)
  {
  }

  lemma {:induction false} OnesHasBit(k: nat)
    requires k < 32
    ensures Bit(ONES, k)
  {
    MaskInWord(k);
  }

  lemma MaskUnfolds(k: nat)
    ensures k > 0 ==> Mask(k) == Shl(Mask(k - 1))
    ensures Mask(0) == ONE
  {
  }

  /** Mask(j) has bit j and no other. */
  lemma {:induction false} MaskBit(j: nat, k: nat)
    requires j < 32 && k < 32
    ensures Bit(Mask(j), k) <==> j == k
  {
    hide Bit, Has, Mask;
    MaskUnfolds(j);
    if j > 0 && k > 0 {
      MaskBit(j - 1, k - 1);
      ShiftBit(Mask(j - 1), k - 1);
    } else if j > 0 {
      ShiftBitZero(Mask(j - 1));
    } else if k > 0 {
      OneHasNoOtherBit(k);
    } else {
      OneHasBitZero();
    }
  }

  lemma OneHasBitZero()
    ensures Bit(Mask(0), 0)
  {
  }

  lemma OneHasNoOtherBit(k: nat)
    requires k > 0
    ensures !Bit(Mask(0), k)
  {
  }

  /** The word with bits 0..k-1 set. */
  function Low(k: nat): word {
    if k == 0 then 0 else Low(k - 1) | Mask(k - 1)
  }

  lemma LowStep(l: word, m: word)
    requires AtMostOne(m) && m != 0 && l == m - 1
    ensures l | m == (m << 1) - 1
  {
  }

  lemma {:induction false} LowIsMaskMinusOne(k: nat)
    requires k <= 32
    ensures Low(k) == Mask(k) - 1
  {
    if k > 0 {
      LowIsMaskMinusOne(k - 1);
      MaskAtMostOne(k - 1);
      MaskInWord(k - 1);
      LowStep(Low(k - 1), Mask(k - 1));
    }
  }

  lemma AllLow()
    ensures Low(32) == ONES
  {
    LowIsMaskMinusOne(32);
    MaskInWord(32);
  }

  lemma LowUnfolds(n: nat)
    requires n > 0
    ensures Low(n) == Or(Low(n - 1), Mask(n - 1))
  {
  }

  lemma {:induction false} LowBit(n: nat, k: nat)
    requires n <= 32 && k < 32
    ensures Bit(Low(n), k) <==> k < n
  {
    hide Bit, Has, Mask;
    if n == 0 {
      ZeroHasNoBit(k);
    } else {
      LowBit(n - 1, k);
      LowUnfolds(n);
      MaskBit(n - 1, k);
      OrBit(Low(n - 1), Mask(n - 1), k);
    }
  }

  lemma ClearStep(w: word, l: word, m: word)
    requires w & l == 0 && w & m == 0
    ensures w & (l | m) == 0
  {
  }

  lemma {:induction false} ClearBelow(w: word, k: nat)
    requires forall b :: 0 <= b < k ==> !Bit(w, b)
    ensures w & Low(k) == 0
  {
    if k > 0 {
      ClearBelow(w, k - 1);
      assert !Bit(w, k - 1);
      ClearStep(w, Low(k - 1), Mask(k - 1));
    }
  }

  /** A word is not zero exactly when one of its bits is set. */
  lemma NonZeroHasBit(w: word)
    ensures w != ZERO <==> exists b :: 0 <= b < 32 && Bit(w, b)
  {
    if forall b :: 0 <= b < 32 ==> !Bit(w, b) {
      ClearBelow(w, 32);
      AllLow();
    } else {
      var b :| 0 <= b < 32 && Bit(w, b);
      ZeroHasNoBit(b);
    }
  }

  lemma ShrStep(m: word)
    requires AtMostOne(m) && m != 0
    ensures Shr((m << 1) - 1) == m - 1
  {
  }

  lemma ShrLow(k: nat)
    requires 1 <= k <= 32
    ensures Shr(Low(k)) == Low(k - 1)
  {
    LowIsMaskMinusOne(k);
    LowIsMaskMinusOne(k - 1);
    MaskAtMostOne(k - 1);
    MaskInWord(k - 1);
    ShrStep(Mask(k - 1));
  }

  lemma BelowStep(w: word, m: word)
    requires AtMostOne(m) && m != 0
    ensures Below(w, Not(m - 1)) <==> Not(Or(w, m - 1)) != ZERO
  {
    AtMostOneIsPower(m);
    BelowTop(w, m - 1);
  }

  lemma AtMostOneIsPower(m: word)
    requires AtMostOne(m) && m != 0
    ensures (m - 1) & m == 0
  {
  }

  lemma BelowTop(w: word, l: word)
    requires l & (l + 1) == 0
    ensures w < !l <==> !(w | l) != 0
  {
  }

  /** Comparing with the complement of Low(k) asks whether some bit from k on is clear. */
  lemma BelowLimit(w: word, k: nat)
    requires k < 32
    ensures Below(w, Not(Low(k))) <==> exists b :: k <= b < 32 && !Bit(w, b)
  {
    hide Bit, Not, Or, Below, Low, Mask, AtMostOne, ZERO;
    LowIsMaskMinusOne(k);
    MaskAtMostOne(k);
    MaskInWord(k);
    BelowStep(w, Mask(k));
    NonZeroHasBit(Not(Or(w, Low(k))));
    forall b: nat | b < 32
      ensures Bit(Not(Or(w, Low(k))), b) <==> k <= b && !Bit(w, b)
    {
      NotBit(Or(w, Low(k)), b);
      OrBit(w, Low(k), b);
      LowBit(k, b);
    }
  }
}
