/** Packed search for Chinese characters: pre_bndm_hz_multi and bndm_hz_multi of
    filesearch/str_match.c, pre_bndm_cn and hz_match_one of filesearch/chinese.c.
    A list of characters is a byte sequence of three bytes per character. */
module Hanzi {
  import opened Chars
  import opened Bits
  import opened BitParallel

  const SHIFTS: seq<word> :=
    [0x6, 0x36, 0x1b6, 0xdb6, 0x6db6, 0x36db6, 0x1b6db6, 0xdb6db6, 0x6db6db6, 0x36db6db6]
  const MASKS: seq<word> :=
    [0x4, 0x24, 0x124, 0x924, 0x4924, 0x24924, 0x124924, 0x924924, 0x4924924, 0x24924924]

  lemma MaskValues()
    ensures Mask(0) == 0x1 && Mask(1) == 0x2 && Mask(2) == 0x4
    ensures Mask(4) == 0x10 && Mask(5) == 0x20
    ensures Mask(7) == 0x80 && Mask(8) == 0x100
    ensures Mask(10) == 0x400 && Mask(11) == 0x800
    ensures Mask(13) == 0x2000 && Mask(14) == 0x4000
    ensures Mask(16) == 0x1_0000 && Mask(17) == 0x2_0000
    ensures Mask(19) == 0x8_0000 && Mask(20) == 0x10_0000
    ensures Mask(22) == 0x40_0000 && Mask(23) == 0x80_0000
    ensures Mask(25) == 0x200_0000 && Mask(26) == 0x400_0000
    ensures Mask(28) == 0x1000_0000 && Mask(29) == 0x2000_0000
  {
    assert Mask(3) == 0x8;
    assert Mask(6) == 0x40;
    assert Mask(9) == 0x200;
    assert Mask(12) == 0x1000;
    assert Mask(15) == 0x8000;
    assert Mask(18) == 0x4_0000;
    assert Mask(21) == 0x20_0000;
    assert Mask(24) == 0x100_0000;
    assert Mask(27) == 0x800_0000;
  }

  /** One more character adds three bits, and its first two are those that may be shifted into. */
  lemma ShiftsGrow(r: nat)
    requires 1 <= r <= 10
    ensures |SHIFTS| == |MASKS| == 10
    ensures SHIFTS[r - 1] == Or(Or(if r == 1 then ZERO else SHIFTS[r - 2], Mask(3 * r - 2)), Mask(3 * r - 1))
    ensures MASKS[r - 1] == Or(if r == 1 then ZERO else MASKS[r - 2], Mask(3 * r - 1))
  {
    hide Mask;
    MaskValues();
  }

  lemma {:induction false} ShiftsBit(r: nat, b: nat)
    requires 1 <= r <= 10 && b < 32
    ensures Bit(SHIFTS[r - 1], b) <==> b < 3 * r && b % 3 != 0
    ensures Bit(MASKS[r - 1], b) <==> b < 3 * r && b % 3 == 2
  {
    hide Mask, Bit, Or, ZERO, SHIFTS, MASKS;
    ShiftsGrow(r);
    var shift, mask := if r == 1 then ZERO else SHIFTS[r - 2], if r == 1 then ZERO else MASKS[r - 2];
    if r > 1 {
      ShiftsBit(r - 1, b);
    } else {
      ZeroHasNoBit(b);
    }
    OrBit(Or(shift, Mask(3 * r - 2)), Mask(3 * r - 1), b);
    OrBit(shift, Mask(3 * r - 2), b);
    OrBit(mask, Mask(3 * r - 1), b);
    MaskBit(3 * r - 2, b);
    MaskBit(3 * r - 1, b);
  }

  // ---------- what the words mean ----------

  /** The words that stop a match at character boundaries and that pick first bytes; bits beyond
      the list do not matter. */
  ghost predicate BoundaryWords(m: nat, shift: word, mask: word) {
    forall b: nat :: b < 32 && b < m ==> (Bit(shift, b) <==> b % 3 != 0) && (Bit(mask, b) <==> b % 3 == 2)
  }

  ghost predicate HzTable(x: seq<byte>, tbl: seq<word>) {
    |tbl| == 256 && forall c: byte :: SuffixColumn(x, |x|, tbl[c], c)
  }

  /** The last t bytes of the window ending at e lie in x at distance b from its end, inside one character. */
  predicate InCharacter(x: seq<byte>, b: int, y: seq<byte>, e: int, t: int) {
    Factor(x, b, y, e, t) && t - 1 <= b % 3
  }

  ghost predicate HzRead(x: seq<byte>, y: seq<byte>, e: int, t: int, d: word) {
    forall b: nat :: b < 32 ==> (Bit(d, b) <==> InCharacter(x, b, y, e, t))
  }

  ghost predicate HzReady(x: seq<byte>, y: seq<byte>, e: int, t: int, d: word) {
    forall b: nat :: b < 32 && b < |x| ==>
      (Bit(d, b) <==> t == 0 || (InCharacter(x, b - 1, y, e, t) && b % 3 != 0))
  }

  lemma InCharacterExtend(x: seq<byte>, b: int, y: seq<byte>, e: int, t: int)
    requires 0 <= t < 3 && t < e <= |y|
    ensures InCharacter(x, b, y, e, t + 1) <==>
            0 <= b < |x| && x[|x| - 1 - b] == y[e - t - 1] && (t == 0 || (InCharacter(x, b - 1, y, e, t) && b % 3 != 0))
  {
    hide Factor;
    FactorExtend(x, b, y, e, t);
    if t == 0 {
      FactorNonNegative(x, b, y, e, 1);
    }
  }

  lemma FactorNonNegative(x: seq<int>, b: int, y: seq<int>, e: int, t: int)
    ensures Factor(x, b, y, e, t) ==> 0 <= b < |x|
  {
  }

  lemma HzReadStep(x: seq<byte>, y: seq<byte>, e: int, t: int, d: word, w: word)
    requires 0 <= t < 3 && t < e <= |y| && HzReady(x, y, e, t, d) && SuffixColumn(x, |x|, w, y[e - t - 1])
    ensures HzRead(x, y, e, t + 1, And(d, w))
  {
    hide InCharacter, Bit, And;
    var after, n := And(d, w), t + 1;
    forall b: nat | b < 32
      ensures Bit(after, b) <==> InCharacter(x, b, y, e, n)
    {
      AndBit(d, w, b);
      InCharacterExtend(x, b, y, e, t);
    }
  }

  lemma HzShiftStep(x: seq<byte>, y: seq<byte>, e: int, t: int, d: word, shift: word, mask: word)
    requires 0 < t && HzRead(x, y, e, t, d) && BoundaryWords(|x|, shift, mask)
    ensures HzReady(x, y, e, t, And(Shl(d), shift))
  {
    hide InCharacter, Bit, And, Shl;
    var after := And(Shl(d), shift);
    forall b: nat | b < 32 && b < |x|
      ensures Bit(after, b) <==> InCharacter(x, b - 1, y, e, t) && b % 3 != 0
    {
      AndBit(Shl(d), shift, b);
      if b == 0 {
        ShiftBitZero(d);
      } else {
        ShiftBit(d, b - 1);
      }
    }
  }

  lemma HzReadyStarts(x: seq<byte>, y: seq<byte>, e: int)
    ensures HzReady(x, y, e, 0, ONES)
  {
    hide InCharacter, Bit, ONES;
    forall b: nat | b < 32
      ensures Bit(ONES, b)
    {
      OnesHasBit(b);
    }
  }

  /** The first t bytes of some character of x are the last t bytes of the window. */
  ghost predicate PrefixSeen(x: seq<byte>, y: seq<byte>, e: int, t: int) {
    exists b: nat :: b < |x| && b % 3 == 2 && InCharacter(x, b, y, e, t)
  }

  lemma MaskedMeansPrefix(x: seq<byte>, y: seq<byte>, e: int, t: int, d: word, shift: word, mask: word)
    requires |x| <= 32 && HzRead(x, y, e, t, d) && BoundaryWords(|x|, shift, mask)
    ensures And(d, mask) != ZERO <==> PrefixSeen(x, y, e, t)
  {
    hide InCharacter, Bit, And, ZERO;
    NonZeroHasBit(And(d, mask));
    forall b: nat | b < 32
      ensures Bit(And(d, mask), b) <==> b < |x| && b % 3 == 2 && InCharacter(x, b, y, e, t)
    {
      AndBit(d, mask, b);
      InCharacterBounds(x, b, y, e, t);
    }
  }

  lemma InCharacterBounds(x: seq<byte>, b: int, y: seq<byte>, e: int, t: int)
    ensures InCharacter(x, b, y, e, t) ==> 0 <= b < |x|
  {
  }

  /** Longer prefixes could only be seen through bits that are still set. */
  lemma ZeroSeesNoMore(x: seq<byte>, y: seq<byte>, e: int, t: int)
    requires 0 <= t <= 3 <= e <= |y| && |x| <= 32 && HzReady(x, y, e, t, ZERO)
    ensures forall n :: t < n <= 3 ==> !PrefixSeen(x, y, e, n)
  {
    hide InCharacter, Bit, ZERO;
    forall b: nat, n | t < n <= 3 && b < |x|
      ensures !InCharacter(x, b, y, e, n)
    {
      NothingLonger(x, b, y, e, t, n);
    }
  }

  lemma {:induction false} NothingLonger(x: seq<byte>, b: int, y: seq<byte>, e: int, t: int, n: int)
    requires 0 <= t < n <= 3 <= e <= |y| && |x| <= 32 && HzReady(x, y, e, t, ZERO)
    ensures !InCharacter(x, b, y, e, n)
    decreases n
  {
    hide InCharacter, Bit, ZERO;
    InCharacterExtend(x, b, y, e, n - 1);
    if t < n - 1 {
      NothingLonger(x, b - 1, y, e, t, n - 1);
    } else if 0 <= b < |x| {
      ZeroHasNoBit(b);
    }
  }

  // ---------- the search ----------

  function Character(x: seq<byte>, k: int): seq<byte>
    requires 0 <= k < |x| / 3
  {
    x[3 * k..3 * k + 3]
  }

  /** Some character of x lies on y at byte offset j. */
  predicate HzAt(x: seq<byte>, y: seq<byte>, j: int) {
    0 <= j <= |y| - 3 && exists k :: 0 <= k < |x| / 3 && Character(x, k) == y[j..j + 3]
  }

  /** r is the end of the earliest such place, or 0 if there is none. */
  ghost predicate EarliestEnd(x: seq<byte>, y: seq<byte>, r: int) {
    (r == 0 && forall j :: !HzAt(x, y, j)) || (HzAt(x, y, r - 3) && forall j :: HzAt(x, y, j) ==> r - 3 <= j)
  }

  lemma HzAtSeen(x: seq<byte>, y: seq<byte>, j: int, s: int)
    requires |x| % 3 == 0 && HzAt(x, y, j + s) && 0 <= s < 3 && 0 <= j <= |y| - 3
    ensures PrefixSeen(x, y, j + 3, 3 - s)
  {
    var k :| 0 <= k < |x| / 3 && Character(x, k) == y[j + s..j + s + 3];
    var b := |x| - 1 - 3 * k;
    SubSlice(x, 3 * k, 3 * k + 3, y, j + s, j + s + 3, 3 * k, 3 * k + 3 - s, j + s, j + 3);
    assert InCharacter(x, b, y, j + 3, 3 - s);
  }

  lemma SeenHzAt(x: seq<byte>, y: seq<byte>, j: int)
    requires |x| % 3 == 0 && PrefixSeen(x, y, j + 3, 3)
    ensures HzAt(x, y, j)
  {
    var b: nat :| b < |x| && b % 3 == 2 && InCharacter(x, b, y, j + 3, 3);
    var k := (|x| - 1 - b) / 3;
    assert Character(x, k) == y[j..j + 3];
  }

  ghost predicate LeavesRoom(x: seq<byte>, y: seq<byte>, e: int, t: int, last: int) {
    forall n :: 1 <= n <= t && PrefixSeen(x, y, e, n) ==> last <= 3 - n
  }

  /** Bytes i+1..2 of the window at j have been read; every prefix seen so far, and every prefix
      at all once the word is zero, leaves room for the shift `last`. */
  ghost predicate HzScanning(x: seq<byte>, y: seq<byte>, j: int, i: int, last: int, d: word) {
    && 0 <= j <= |y| - 3 && -1 <= i < 3 && 1 <= last <= 3
    && HzReady(x, y, j + 3, 2 - i, d)
    && LeavesRoom(x, y, j + 3, if d == ZERO then 3 else 2 - i, last)
  }

  lemma HzScanningStarts(x: seq<byte>, y: seq<byte>, j: int)
    requires 0 <= j <= |y| - 3
    ensures HzScanning(x, y, j, 2, 3, ONES)
  {
    hide HzReady, PrefixSeen;
    HzReadyStarts(x, y, j + 3);
    assert ONES != ZERO;
  }

  lemma HzScanStep(x: seq<byte>, y: seq<byte>, j: int, i: int, last: int, d: word, w: word, shift: word, mask: word)
    requires |x| <= 32 && |x| % 3 == 0 && BoundaryWords(|x|, shift, mask)
    requires HzScanning(x, y, j, i, last, d) && 0 <= i && d != ZERO && SuffixColumn(x, |x|, w, y[j + i])
    ensures var after := And(d, w);
            if And(after, mask) == ZERO then HzScanning(x, y, j, i - 1, last, And(Shl(after), shift))
            else if 0 < i then HzScanning(x, y, j, i - 1, i, And(Shl(after), shift))
            else HzAt(x, y, j)
  {
    hide HzReady, HzRead, PrefixSeen, BoundaryWords, SuffixColumn, And, Shl, HzAt, ZERO;
    var t, after := 3 - i, And(d, w);
    HzReadStep(x, y, j + 3, t - 1, d, w);
    HzShiftStep(x, y, j + 3, t, after, shift, mask);
    MaskedMeansPrefix(x, y, j + 3, t, after, shift, mask);
    if And(Shl(after), shift) == ZERO {
      ZeroSeesNoMore(x, y, j + 3, t);
    }
    if t == 3 && And(after, mask) != ZERO {
      SeenHzAt(x, y, j);
    }
  }

  lemma HzScanningEnds(x: seq<byte>, y: seq<byte>, j: int, i: int, last: int, d: word)
    requires |x| % 3 == 0 && HzScanning(x, y, j, i, last, d) && (i < 0 || d == ZERO)
    requires forall e :: e < j ==> !HzAt(x, y, e)
    ensures 1 <= last <= 3 && forall e :: e < j + last ==> !HzAt(x, y, e)
  {
    hide HzReady, PrefixSeen, HzAt;
    forall e | j <= e < j + last
      ensures !HzAt(x, y, e)
    {
      if HzAt(x, y, e) {
        HzAtSeen(x, y, j, e - j);
      }
    }
  }

  /** bndm_hz_multi: the end of the earliest character of the list in the text, or 0. Asked for an
      empty list it reads its two words from outside their tables; they do not matter then. */
  method BndmHzMulti(x: seq<byte>, y: seq<byte>, preNext: seq<word>) returns (r: int)
    requires HzTable(x, preNext)
    ensures if |x| < 32 && |x| % 3 == 0 then EarliestEnd(x, y, r) else r == 0
  {
    hide *;
    var m := |x|;
    if !(m < 32 && m % 3 == 0) {
      return 0;
    }
    var shift, mask := HzWords(m);
    var j := 0;
    HzNoneYet(x, y);
    while j <= |y| - 3
      invariant 0 <= j && forall e :: e < j ==> !HzAt(x, y, e)
    {
      var i, last, d := 2, 3, ONES;
      HzScanningStarts(x, y, j);
      while i >= 0 && d != ZERO
        invariant -1 <= i < 3 && HzScanning(x, y, j, i, last, d)
        decreases i
      {
        HzTableAt(x, preNext, y[j + i]);
        var pre := preNext[y[j + i]];
        HzScanStep(x, y, j, i, last, d, pre, shift, mask);
        d := And(d, pre);
        i := i - 1;
        if And(d, mask) != ZERO {
          if i >= 0 {
            last := i + 1;
          } else {
            HzFound(x, y, j);
            return j + 3;
          }
        }
        d := And(Shl(d), shift);
      }
      HzScanningEnds(x, y, j, i, last, d);
      j := j + last;
    }
    HzNotFound(x, y, j);
    return 0;
  }

  /** The words that bndm_hz_multi picks for a list of m bytes. */
  method HzWords(m: int) returns (shift: word, mask: word)
    requires 0 <= m < 32 && m % 3 == 0
    ensures BoundaryWords(m, shift, mask)
  {
    if m == 0 {
      shift, mask := *, *;
    } else {
      shift, mask := SHIFTS[m / 3 - 1], MASKS[m / 3 - 1];
      BoundaryWordsOf(m);
    }
  }

  lemma BoundaryWordsOf(m: int)
    requires 0 < m < 32 && m % 3 == 0
    ensures m / 3 <= 10 && BoundaryWords(m, SHIFTS[m / 3 - 1], MASKS[m / 3 - 1])
  {
    hide Bit, SHIFTS, MASKS;
    ShiftsGrow(m / 3);
    forall b: nat | b < 32 && b < m
      ensures Bit(SHIFTS[m / 3 - 1], b) <==> b % 3 != 0
      ensures Bit(MASKS[m / 3 - 1], b) <==> b % 3 == 2
    {
      ShiftsBit(m / 3, b);
    }
  }

  lemma HzTableAt(x: seq<byte>, tbl: seq<word>, c: byte)
    requires HzTable(x, tbl)
    ensures |tbl| == 256 && SuffixColumn(x, |x|, tbl[c], c)
  {
  }

  lemma HzNoneYet(x: seq<byte>, y: seq<byte>)
    ensures forall e :: e < 0 ==> !HzAt(x, y, e)
  {
  }

  lemma HzFound(x: seq<byte>, y: seq<byte>, j: int)
    requires HzAt(x, y, j) && forall e :: e < j ==> !HzAt(x, y, e)
    ensures EarliestEnd(x, y, j + 3)
  {
  }

  lemma HzNotFound(x: seq<byte>, y: seq<byte>, j: int)
    requires j > |y| - 3 && forall e :: e < j ==> !HzAt(x, y, e)
    ensures EarliestEnd(x, y, 0)
  {
  }

  // ---------- tables and lists longer than ten ----------

  ghost predicate HzPartTable(x: seq<byte>, n: int, tbl: seq<word>) {
    |tbl| == 256 && forall c: byte :: SuffixColumn(x, n, tbl[c], c)
  }

  lemma HzPartStarts(x: seq<byte>, tbl: seq<word>)
    requires |tbl| == 256 && forall c :: 0 <= c < 256 ==> tbl[c] == ZERO
    ensures HzPartTable(x, 0, tbl)
  {
    hide Bit, ZERO;
    forall b: nat
      ensures !Bit(ZERO, b)
    {
      ZeroHasNoBit(b);
    }
  }

  lemma HzPartStep(x: seq<byte>, n: int, tbl: seq<word>)
    requires 0 <= n < |x| && HzPartTable(x, n, tbl)
    ensures var p := x[|x| - 1 - n]; HzPartTable(x, n + 1, tbl[p := Or(tbl[p], Mask(n))])
  {
    hide SuffixColumn, Mask, Or;
    var p := x[|x| - 1 - n];
    var updated := tbl[p := Or(tbl[p], Mask(n))];
    forall c: byte
      ensures SuffixColumn(x, n + 1, updated[c], c)
    {
      SuffixColumnStep(x, n, tbl[c], c);
    }
  }

  lemma HzPartDone(x: seq<byte>, tbl: seq<word>)
    requires HzPartTable(x, |x|, tbl)
    ensures HzTable(x, tbl)
  {
  }

  /** pre_bndm_hz_multi: fills the 256 words of `prestr` from `base` on, and no others. */
  method PreBndmHzMulti(x: seq<byte>, prestr: array<word>, base: int)
    requires 0 <= base && base + 256 <= prestr.Length
    requires forall c :: base <= c < base + 256 ==> prestr[c] == ZERO
    modifies prestr
    ensures HzTable(x, prestr[base..base + 256])
    ensures prestr[..base] == old(prestr[..base]) && prestr[base + 256..] == old(prestr[base + 256..])
  {
    hide *;
    HzPartStarts(x, prestr[base..base + 256]);
    FirstMask();
    var i, s := |x| - 1, ONE;
    while i >= 0
      invariant -1 <= i < |x| && s == Mask(|x| - 1 - i)
      invariant HzPartTable(x, |x| - 1 - i, prestr[base..base + 256])
      invariant prestr[..base] == old(prestr[..base]) && prestr[base + 256..] == old(prestr[base + 256..])
    {
      ghost var tbl := prestr[base..base + 256];
      HzPartStep(x, |x| - 1 - i, tbl);
      prestr[base + x[i]] := Or(prestr[base + x[i]], s);
      assert prestr[base..base + 256] == tbl[x[i] := Or(tbl[x[i]], s)];
      MaskUnfolds(|x| - i);
      s := Shl(s);
      i := i - 1;
    }
    HzPartDone(x, prestr[base..base + 256]);
  }

  /** The list is cut into blocks of ten characters. */
  function BlockCount(len: nat): nat {
    len / 10 + if len % 10 != 0 then 1 else 0
  }

  /** The bytes of block i: thirty, except that the last block gets len % 10 characters. */
  function Block(hz: seq<byte>, i: int): (b: seq<byte>)
    requires |hz| % 3 == 0 && 0 <= i < BlockCount(|hz| / 3)
    ensures |b| <= 30 && |b| % 3 == 0
  {
    var len := |hz| / 3;
    hz[30 * i..30 * i + if i < BlockCount(len) - 1 then 30 else 3 * (len % 10)]
  }

  /** The characters that some block holds: all of them, unless their number is a positive
      multiple of ten, when the last block is empty. */
  function Covered(hz: seq<byte>): (c: seq<byte>)
    requires |hz| % 3 == 0
    ensures |c| % 3 == 0
  {
    if |hz| > 0 && |hz| / 3 % 10 == 0 then hz[..|hz| - 30] else hz
  }

  lemma BlocksWithin(hz: seq<byte>, i: int, q: int)
    requires |hz| % 3 == 0 && 0 <= i < BlockCount(|hz| / 3) && 0 <= q < |Block(hz, i)| / 3
    ensures 10 * i + q < |Covered(hz)| / 3 && Character(Covered(hz), 10 * i + q) == Character(Block(hz, i), q)
  {
    var k := 10 * i + q;
    assert Character(Covered(hz), k) == hz[3 * k..3 * k + 3];
    SliceOfSlice(hz, 30 * i, 30 * i + |Block(hz, i)|, 3 * k, 3 * k + 3);
  }

  lemma BlocksCover(hz: seq<byte>, k: int)
    requires |hz| % 3 == 0 && 0 <= k < |Covered(hz)| / 3
    ensures k / 10 < BlockCount(|hz| / 3) && k % 10 < |Block(hz, k / 10)| / 3
    ensures Character(Covered(hz), k) == Character(Block(hz, k / 10), k % 10)
  {
    hide Character;
    BlockHolds(|hz| / 3, k / 10, k % 10, k);
    BlocksWithin(hz, k / 10, k % 10);
  }

  lemma BlockHolds(len: int, i: int, q: int, k: int)
    requires 0 <= k == 10 * i + q && 0 <= q < 10
    requires k < if len > 0 && len % 10 == 0 then len - 10 else len
    ensures i < BlockCount(len) && (i == BlockCount(len) - 1 ==> q < len % 10)
  {
  }

  /** A covered character lies on the text exactly where a character of some block does. */
  lemma CoveredByBlocks(hz: seq<byte>, y: seq<byte>, j: int)
    requires |hz| % 3 == 0
    ensures HzAt(Covered(hz), y, j) <==> exists i :: 0 <= i < BlockCount(|hz| / 3) && HzAt(Block(hz, i), y, j)
  {
    hide Character, Covered, Block, BlockCount;
    if HzAt(Covered(hz), y, j) {
      var k :| 0 <= k < |Covered(hz)| / 3 && Character(Covered(hz), k) == y[j..j + 3];
      BlocksCover(hz, k);
      assert HzAt(Block(hz, k / 10), y, j);
    }
    if i :| 0 <= i < BlockCount(|hz| / 3) && HzAt(Block(hz, i), y, j) {
      var q :| 0 <= q < |Block(hz, i)| / 3 && Character(Block(hz, i), q) == y[j..j + 3];
      BlocksWithin(hz, i, q);
    }
  }

  ghost predicate BlockTables(hz: seq<byte>, tables: seq<word>, n: int)
    requires |hz| % 3 == 0
  {
    n <= BlockCount(|hz| / 3) && 256 * n <= |tables|
    && forall i :: 0 <= i < n ==> HzTable(Block(hz, i), TableOf(tables, i))
  }

  function TableOf(tables: seq<word>, i: int): seq<word>
    requires 0 <= i && 256 * i + 256 <= |tables|
  {
    tables[256 * i..256 * i + 256]
  }

  lemma BlockTablesStep(hz: seq<byte>, before: seq<word>, after: seq<word>, n: int)
    requires |hz| % 3 == 0 && 0 <= n < BlockCount(|hz| / 3) && |before| == |after| == 256 * BlockCount(|hz| / 3)
    requires BlockTables(hz, before, n) && after[..256 * n] == before[..256 * n]
    requires HzTable(Block(hz, n), TableOf(after, n))
    ensures BlockTables(hz, after, n + 1)
  {
    hide HzTable, Block, BlockCount;
    forall i | 0 <= i < n
      ensures TableOf(after, i) == TableOf(before, i)
    {
      SliceOfSlice(after, 0, 256 * n, 256 * i, 256 * i + 256);
      SliceOfSlice(before, 0, 256 * n, 256 * i, 256 * i + 256);
      assert after[0..256 * n] == before[0..256 * n];
    }
  }

  /** pre_bndm_cn: one table of 256 words per block. */
  method PreBndmCn(hz: seq<byte>) returns (tables: array<word>)
    requires |hz| % 3 == 0
    ensures fresh(tables) && tables.Length == 256 * BlockCount(|hz| / 3)
    ensures BlockTables(hz, tables[..], BlockCount(|hz| / 3))
  {
    hide HzTable, Block, ZERO, BlockTables;
    var count := BlockCount(|hz| / 3);
    tables := new word[256 * count](_ => ZERO);
    NoTablesYet(hz, tables[..]);
    var i := 0;
    while i < count
      invariant 0 <= i <= count && BlockTables(hz, tables[..], i)
      invariant forall c :: 256 * i <= c < tables.Length ==> tables[c] == ZERO
    {
      ghost var before := tables[..];
      PreBndmHzMulti(Block(hz, i), tables, 256 * i);
      assert tables[..][..256 * i] == tables[..256 * i] && before[..256 * i] == tables[..256 * i];
      assert TableOf(tables[..], i) == tables[256 * i..256 * i + 256];
      BlockTablesStep(hz, before, tables[..], i);
      forall c | 256 * (i + 1) <= c < tables.Length
        ensures tables[c] == ZERO
      {
        assert tables[256 * i + 256..][c - 256 * i - 256] == before[256 * i + 256..][c - 256 * i - 256] == before[c];
      }
      i := i + 1;
    }
  }

  lemma NoTablesYet(hz: seq<byte>, tables: seq<word>)
    requires |hz| % 3 == 0 && |tables| == 256 * BlockCount(|hz| / 3)
    ensures BlockTables(hz, tables, 0)
  {
  }

  /** Some character of x lies somewhere on y. */
  ghost predicate HzOccurs(x: seq<byte>, y: seq<byte>) {
    exists j :: HzAt(x, y, j)
  }

  /** hz_match_one: non-zero exactly when a covered character occurs, and then the end of such a place. */
  method HzMatchOne(hz: seq<byte>, y: seq<byte>, tables: array<word>) returns (r: int)
    requires |hz| % 3 == 0 && BlockTables(hz, tables[..], BlockCount(|hz| / 3))
    ensures r != 0 <==> HzOccurs(Covered(hz), y)
    ensures r != 0 ==> HzAt(Covered(hz), y, r - 3)
  {
    hide *;
    var count := BlockCount(|hz| / 3);
    var i := 0;
    NoBlockYet(hz, y);
    while i < count
      invariant 0 <= i && NotInBlocks(hz, y, i)
    {
      BlockAt(hz, tables[..], i);
      var block := Block(hz, i);
      assert TableOf(tables[..], i) == tables[256 * i..256 * i + 256] by { TableOfArray(tables[..], i); }
      var match_ := BndmHzMulti(block, y, tables[256 * i..256 * i + 256]);
      BlockResult(hz, y, i, match_);
      if match_ != 0 {
        return match_;
      }
      i := i + 1;
    }
    NotInAnyBlock(hz, y, i);
    return 0;
  }

  ghost predicate NotInBlocks(hz: seq<byte>, y: seq<byte>, n: int)
    requires |hz| % 3 == 0
  {
    n <= BlockCount(|hz| / 3) && forall i :: 0 <= i < n ==> !HzOccurs(Block(hz, i), y)
  }

  lemma NoBlockYet(hz: seq<byte>, y: seq<byte>)
    requires |hz| % 3 == 0
    ensures NotInBlocks(hz, y, 0)
  {
  }

  lemma TableOfArray(tables: seq<word>, i: int)
    requires 0 <= i && 256 * i + 256 <= |tables|
    ensures TableOf(tables, i) == tables[256 * i..256 * i + 256]
  {
  }

  lemma BlockAt(hz: seq<byte>, tables: seq<word>, i: int)
    requires |hz| % 3 == 0 && BlockTables(hz, tables, BlockCount(|hz| / 3)) && 0 <= i < BlockCount(|hz| / 3)
    ensures 256 * i + 256 <= |tables| && HzTable(Block(hz, i), TableOf(tables, i))
  {
    hide HzTable, Block;
  }

  lemma BlockResult(hz: seq<byte>, y: seq<byte>, i: int, r: int)
    requires |hz| % 3 == 0 && 0 <= i < BlockCount(|hz| / 3) && NotInBlocks(hz, y, i)
    requires EarliestEnd(Block(hz, i), y, r)
    ensures if r == 0 then NotInBlocks(hz, y, i + 1) else HzAt(Covered(hz), y, r - 3) && HzOccurs(Covered(hz), y)
  {
    hide Block, BlockCount, Covered;
    if r == 0 {
      assert !HzAt(Block(hz, i), y, -3);
    } else {
      CoveredByBlocks(hz, y, r - 3);
    }
  }

  lemma NotInAnyBlock(hz: seq<byte>, y: seq<byte>, n: int)
    requires |hz| % 3 == 0 && NotInBlocks(hz, y, n) && n >= BlockCount(|hz| / 3)
    ensures !HzOccurs(Covered(hz), y)
  {
    hide Block, BlockCount, Covered, HzAt;
    if HzOccurs(Covered(hz), y) {
      var j :| HzAt(Covered(hz), y, j);
      CoveredByBlocks(hz, y, j);
    }
  }

  /** Each of the last ten characters also stands earlier in the list. */
  predicate LastTenRepeated(hz: seq<byte>) {
    var n := |hz| / 3;
    forall k :: n - 10 <= k < n && 0 <= k ==> exists q :: 0 <= q < n - 10 && Character(hz, q) == Character(hz, k)
  }

  /** A positive multiple of ten. */
  predicate DropsTen(hz: seq<byte>) {
    |hz| % 3 == 0 && |hz| > 0 && |hz| / 3 % 10 == 0
  }

  lemma CoveredCharacter(hz: seq<byte>, k: int)
    requires DropsTen(hz) && 0 <= k < |hz| / 3 - 10
    ensures |Covered(hz)| / 3 == |hz| / 3 - 10 && Character(Covered(hz), k) == Character(hz, k)
  {
  }

  lemma DropIsHarmless(hz: seq<byte>, y: seq<byte>)
    requires DropsTen(hz) && LastTenRepeated(hz)
    ensures HzOccurs(Covered(hz), y) <==> HzOccurs(hz, y)
  {
    hide Character, Covered;
    if HzOccurs(hz, y) {
      var j :| HzAt(hz, y, j);
      var k :| 0 <= k < |hz| / 3 && Character(hz, k) == y[j..j + 3];
      var q :| 0 <= q < |hz| / 3 - 10 && Character(hz, q) == Character(hz, k);
      CoveredCharacter(hz, q);
      assert HzAt(Covered(hz), y, j);
    }
    if HzOccurs(Covered(hz), y) {
      var j :| HzAt(Covered(hz), y, j);
      var k :| 0 <= k < |Covered(hz)| / 3 && Character(Covered(hz), k) == y[j..j + 3];
      CoveredLength(hz);
      CoveredCharacter(hz, k);
      assert HzAt(hz, y, j);
    }
  }

  lemma CoveredLength(hz: seq<byte>)
    requires DropsTen(hz)
    ensures |Covered(hz)| / 3 == |hz| / 3 - 10
  {
  }

  lemma DropMatters(hz: seq<byte>) returns (y: seq<byte>)
    requires DropsTen(hz) && !LastTenRepeated(hz)
    ensures HzOccurs(hz, y) && !HzOccurs(Covered(hz), y)
  {
    var n := |hz| / 3;
    var k :| n - 10 <= k < n && 0 <= k && forall q :: 0 <= q < n - 10 ==> Character(hz, q) != Character(hz, k);
    y := Character(hz, k);
    hide Character, Covered;
    CharacterLength(hz, k);
    assert y[0..3] == y;
    assert HzAt(hz, y, 0);
    CoveredLength(hz);
    forall q | 0 <= q < n - 10
      ensures Character(Covered(hz), q) != y
    {
      CoveredCharacter(hz, q);
    }
  }

  lemma CharacterLength(x: seq<byte>, k: int)
    requires 0 <= k < |x| / 3
    ensures |Character(x, k)| == 3
  {
  }

  /** hz_match_one looks for every homophone exactly when their number is not a positive multiple
      of ten (or the ten that are then dropped are repetitions). */
  lemma HzMatchExact(hz: seq<byte>)
    requires |hz| % 3 == 0
    ensures (forall y :: HzOccurs(Covered(hz), y) <==> HzOccurs(hz, y)) <==> !DropsTen(hz) || LastTenRepeated(hz)
  {
    hide HzOccurs, LastTenRepeated;
    if DropsTen(hz) {
      if LastTenRepeated(hz) {
        forall y
          ensures HzOccurs(Covered(hz), y) <==> HzOccurs(hz, y)
        {
          DropIsHarmless(hz, y);
        }
      } else {
        var y := DropMatters(hz);
      }
    }
  }
}
