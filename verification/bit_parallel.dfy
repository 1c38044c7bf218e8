/** Bit-parallel matchers of filesearch/str_match.c: BNDM (the live matcher behind SUBSTR) and
    Shift-Or. Their masks are 32-bit words, so what a run answers is stated for patterns of
    every length, with agreement with the specification matcher up to 32 bytes. */
module BitParallel {
  import opened Chars
  import opened Bits

  // ---------- BNDM: the reversed automaton ----------

  /** Bit b of w says that c is the byte of X at distance b from its end, for the last n bytes of X. */
  ghost predicate SuffixColumn(X: seq<int>, n: int, w: word, c: int) {
    0 <= n <= |X| && forall b: nat :: b < 32 ==> (Bit(w, b) <==> b < n && X[|X| - 1 - b] == c)
  }

  ghost predicate SuffixTable(X: seq<int>, n: int, tbl: seq<word>, caseSensitive: bool) {
    |tbl| == ASIZE && forall c: byte :: SuffixColumn(X, n, tbl[c], Fold(c, caseSensitive))
  }

  /** The t bytes of Y before e occur in X, starting at distance b from its end. */
  predicate Factor(X: seq<int>, b: int, Y: seq<int>, e: int, t: int) {
    0 <= b < |X| && 0 <= t <= b + 1 && t <= e <= |Y| && X[|X| - 1 - b..|X| - 1 - b + t] == Y[e - t..e]
  }

  /** What the word d knows after t bytes of the window ending at e were read. */
  ghost predicate Read(X: seq<int>, Y: seq<int>, e: int, t: int, d: word) {
    forall b: nat :: b < 32 ==> (Bit(d, b) <==> Factor(X, b, Y, e, t))
  }

  /** The same after the shift that prepares the next read. */
  ghost predicate Ready(X: seq<int>, Y: seq<int>, e: int, t: int, d: word) {
    forall b: nat :: b < 32 ==> (Bit(d, b) <==> t == 0 || Factor(X, b - 1, Y, e, t))
  }

  /** No place within reach of the word holds the last t bytes of the window. */
  ghost predicate NoFactor(X: seq<int>, Y: seq<int>, e: int, t: int) {
    forall b :: b < 32 ==> !Factor(X, b, Y, e, t)
  }

  lemma FactorExtend(X: seq<int>, b: int, Y: seq<int>, e: int, t: int)
    requires 0 <= t < e <= |Y|
    ensures Factor(X, b, Y, e, t + 1) <==>
            0 <= b < |X| && X[|X| - 1 - b] == Y[e - t - 1] && (t == 0 || Factor(X, b - 1, Y, e, t))
  {
    if 0 <= b < |X| && t <= b {
      assert X[|X| - 1 - b..|X| - b + t] == [X[|X| - 1 - b]] + X[|X| - b..|X| - b + t];
      assert Y[e - t - 1..e] == [Y[e - t - 1]] + Y[e - t..e];
    }
  }

  lemma ReadStep(X: seq<int>, Y: seq<int>, e: int, t: int, d: word, tbl: seq<word>, c: byte, caseSensitive: bool)
    requires 0 <= t < e <= |Y| && Ready(X, Y, e, t, d) && SuffixTable(X, |X|, tbl, caseSensitive)
    requires Y[e - t - 1] == Fold(c, caseSensitive)
    ensures Read(X, Y, e, t + 1, And(d, tbl[c]))
  {
    hide Factor, Fold, Bit, And;
    assert SuffixColumn(X, |X|, tbl[c], Fold(c, caseSensitive));
    var after, n := And(d, tbl[c]), t + 1;
    forall b: nat | b < 32
      ensures Bit(after, b) <==> Factor(X, b, Y, e, n)
    {
      AndBit(d, tbl[c], b);
      FactorExtend(X, b, Y, e, t);
    }
  }

  lemma FactorOutside(X: seq<int>, Y: seq<int>, e: int, t: int)
    ensures !Factor(X, -1, Y, e, t)
  {
  }

  lemma ShiftStep(X: seq<int>, Y: seq<int>, e: int, t: int, d: word)
    requires 0 < t && Read(X, Y, e, t, d)
    ensures Ready(X, Y, e, t, Shl(d))
  {
    hide Bit, Factor, Shl;
    FactorOutside(X, Y, e, t);
    var after := Shl(d);
    forall b: nat | b < 32
      ensures Bit(after, b) <==> Factor(X, b - 1, Y, e, t)
    {
      if b == 0 {
        ShiftBitZero(d);
      } else {
        ShiftBit(d, b - 1);
      }
    }
  }

  lemma ReadyStarts(X: seq<int>, Y: seq<int>, e: int)
    ensures Ready(X, Y, e, 0, ONES)
  {
    hide Bit, ONES;
    forall b: nat | b < 32
      ensures Bit(ONES, b)
    {
      OnesHasBit(b);
    }
  }

  lemma ReadZero(X: seq<int>, Y: seq<int>, e: int, t: int)
    requires Read(X, Y, e, t, ZERO)
    ensures NoFactor(X, Y, e, t)
  {
    forall b | b < 32
      ensures !Factor(X, b, Y, e, t)
    {
      if 0 <= b {
        ZeroHasNoBit(b);
      }
    }
  }

  lemma ReadyZero(X: seq<int>, Y: seq<int>, e: int, t: int)
    requires Ready(X, Y, e, t, ZERO) && 0 <= t < e <= |Y|
    ensures t > 0 && NoFactor(X, Y, e, t + 1)
  {
    hide Factor;
    ZeroHasNoBit(0);
    var n := t + 1;
    forall b | b < 32
      ensures !Factor(X, b, Y, e, n)
    {
      FactorExtend(X, b, Y, e, t);
      if 0 <= b {
        ZeroHasNoBit(b);
      }
    }
  }

  // ---------- BNDM: which shifts are safe, and what a hit means ----------

  /** The part of the pattern that a window of w bytes looks for. */
  function Tail(X: seq<int>, w: int): seq<int>
    requires 0 <= w <= |X|
  {
    X[|X| - w..]
  }

  lemma OccurrenceHasFactor(X: seq<int>, w: int, Y: seq<int>, j: int, s: int, t: int)
    requires 1 <= w <= |X| && 0 <= s && 0 <= t <= w - s && At(Tail(X, w), Y, j + s)
    ensures j + w <= |Y| ==> Factor(X, s + t - 1, Y, j + w, t) || t == 0
  {
    var P, lo, hi := Tail(X, w), w - s - t, w - s;
    if 0 < t && j + w <= |Y| {
      AtStretch(P, Y, j + s, lo, hi);
      assert P[lo..hi] == X[|X| - w + lo..|X| - w + hi];
    }
  }

  /** A window whose last n + 1 bytes occur nowhere in reach can be moved past them. */
  lemma NoFactorSkips(X: seq<int>, w: int, Y: seq<int>, j: int, last: int)
    requires 1 <= w <= |X| && w <= 32 && 1 <= last <= w && 0 <= j <= |Y| - w
    requires NoFactor(X, Y, j + w, w - last + 1)
    ensures forall e :: j < e < j + last ==> !At(Tail(X, w), Y, e)
  {
    hide Factor, At, Tail;
    forall e | j < e < j + last
      ensures !At(Tail(X, w), Y, e)
    {
      if At(Tail(X, w), Y, e) {
        OccurrenceHasFactor(X, w, Y, j, e - j, w - last + 1);
      }
    }
  }

  /** A word that is not zero after the whole window was read is an occurrence, and conversely. */
  lemma WholeWindow(X: seq<int>, w: int, Y: seq<int>, j: int, d: word)
    requires 1 <= w <= |X| && (w == |X| || 32 <= w) && 0 <= j <= |Y| - w && Read(X, Y, j + w, w, d)
    ensures d != ZERO <==> w <= 32 && At(Tail(X, w), Y, j)
  {
    hide Bit, Factor, At, Tail, ZERO;
    NonZeroHasBit(d);
    if w <= 32 {
      FactorIsWindow(X, w, Y, j);
      if At(Tail(X, w), Y, j) {
        assert Bit(d, w - 1);
      }
    }
    if d != ZERO {
      var b: nat :| b < 32 && Bit(d, b);
      FactorBounds(X, b, Y, j + w, w);
      assert b == w - 1;
    }
  }

  lemma FactorIsWindow(X: seq<int>, w: int, Y: seq<int>, j: int)
    requires 1 <= w <= |X| && 0 <= j <= |Y| - w
    ensures Factor(X, w - 1, Y, j + w, w) <==> At(Tail(X, w), Y, j)
  {
    assert X[|X| - w..] == X[|X| - w..|X| - w + w];
  }

  lemma FactorBounds(X: seq<int>, b: int, Y: seq<int>, e: int, t: int)
    ensures Factor(X, b, Y, e, t) ==> t - 1 <= b < |X|
  {
  }

  /** Moving the window on: the current window does not match, nor does any that is skipped. */
  lemma WindowAdvances(X: seq<int>, w: int, Y: seq<int>, j: int, last: int)
    requires 1 <= w <= |X| && 1 <= last <= w && 0 <= j <= |Y| - w
    requires NoFactor(X, Y, j + w, w - last + 1)
    requires w <= 32 ==> NoneBefore(Tail(X, w), Y, j)
    ensures w <= 32 ==> NoneBefore(Tail(X, w), Y, j + last)
  {
    if w <= 32 {
      hide Factor, At, Tail, NoFactor;
      NoFactorSkips(X, w, Y, j, last);
      if At(Tail(X, w), Y, j) {
        OccurrenceHasFactorAtStart(X, w, Y, j, w - last + 1);
      }
    }
  }

  lemma OccurrenceHasFactorAtStart(X: seq<int>, w: int, Y: seq<int>, j: int, t: int)
    requires 1 <= w <= |X| && w <= 32 && 0 < t <= w && At(Tail(X, w), Y, j) && 0 <= j <= |Y| - w
    ensures !NoFactor(X, Y, j + w, t)
  {
    OccurrenceHasFactor(X, w, Y, j, 0, t);
  }

  // ---------- preBNDM and BNDM ----------

  lemma SuffixTableStarts(X: seq<int>, tbl: seq<word>, caseSensitive: bool)
    requires |tbl| == 256 && forall c :: 0 <= c < 256 ==> tbl[c] == ZERO
    ensures SuffixTable(X, 0, tbl, caseSensitive)
  {
    hide Bit, ZERO;
    forall b: nat
      ensures !Bit(ZERO, b)
    {
      ZeroHasNoBit(b);
    }
  }

  lemma SuffixColumnStep(X: seq<int>, n: int, w: word, c: int)
    requires SuffixColumn(X, n, w, c) && n < |X|
    ensures SuffixColumn(X, n + 1, if X[|X| - 1 - n] == c then Or(w, Mask(n)) else w, c)
  {
    hide Bit, Mask, Or;
    var updated := if X[|X| - 1 - n] == c then Or(w, Mask(n)) else w;
    forall b: nat | b < 32
      ensures Bit(updated, b) <==> b < n + 1 && X[|X| - 1 - b] == c
    {
      OrBit(w, Mask(n), b);
      MaskHasBit(n, b);
    }
  }

  /** `updated` is `tbl` with s added to the words of every byte equal to p under CHAR_EQU. */
  ghost predicate Marked(tbl: seq<word>, updated: seq<word>, p: byte, s: word, caseSensitive: bool) {
    |tbl| == |updated| == ASIZE
    && forall c: byte :: updated[c] == if CharEqu(p, c, caseSensitive) then Or(tbl[c], s) else tbl[c]
  }

  lemma SuffixTableStep(x: seq<byte>, n: int, tbl: seq<word>, updated: seq<word>, caseSensitive: bool)
    requires 0 <= n < |x| && Marked(tbl, updated, x[|x| - 1 - n], Mask(n), caseSensitive)
    requires SuffixTable(FoldAll(x, caseSensitive), n, tbl, caseSensitive)
    ensures SuffixTable(FoldAll(x, caseSensitive), n + 1, updated, caseSensitive)
  {
    hide SuffixColumn, Fold, CharEqu, Mask, Or;
    var X := FoldAll(x, caseSensitive);
    forall c: byte
      ensures SuffixColumn(X, n + 1, updated[c], Fold(c, caseSensitive))
    {
      CharEquIsFold(x[|x| - 1 - n], c, caseSensitive);
      SuffixColumnBounds(X, n, tbl[c], Fold(c, caseSensitive));
      SuffixColumnStep(X, n, tbl[c], Fold(c, caseSensitive));
    }
  }

  lemma SuffixColumnBounds(X: seq<int>, n: int, w: word, c: int)
    requires SuffixColumn(X, n, w, c)
    ensures 0 <= n <= |X|
  {
  }

  /** C's `s <<= 1` leaves a word without bits once bit 31 is passed. */
  lemma MaskHasBit(n: nat, b: nat)
    requires b < 32
    ensures Bit(Mask(n), b) <==> b == n
  {
    hide Mask, Bit;
    MaskInWord(n);
    if n < 32 {
      MaskBit(n, b);
    } else {
      ZeroHasNoBit(b);
    }
  }

  lemma FirstMask()
    ensures Mask(0) == ONE
  {
  }

  /** One byte of the pattern, with its other case unless case matters. */
  method MarkByte(prestr: array<word>, c: byte, s: word, caseSensitive: bool)
    requires prestr.Length == 256
    modifies prestr
    ensures Marked(old(prestr[..]), prestr[..], c, s, caseSensitive)
  {
    hide Or;
    prestr[c] := Or(prestr[c], s);
    if !caseSensitive {
      if UpperCase(c) {
        prestr[c + DIFF] := Or(prestr[c + DIFF], s);
      } else if LowerCase(c) {
        prestr[c - DIFF] := Or(prestr[c - DIFF], s);
      }
    }
  }

  method PreBNDM(x: seq<byte>, prestr: array<word>, caseSensitive: bool)
    requires prestr.Length == 256 && forall c :: 0 <= c < 256 ==> prestr[c] == ZERO
    modifies prestr
    ensures SuffixTable(FoldAll(x, caseSensitive), |x|, prestr[..], caseSensitive)
  {
    hide *;
    ghost var X := FoldAll(x, caseSensitive);
    SuffixTableStarts(X, prestr[..], caseSensitive);
    FirstMask();
    var i, s := |x| - 1, ONE;
    while i >= 0
      invariant -1 <= i < |x| && s == Mask(|x| - 1 - i)
      invariant SuffixTable(X, |x| - 1 - i, prestr[..], caseSensitive)
    {
      ghost var tbl := prestr[..];
      MarkByte(prestr, x[i], s, caseSensitive);
      SuffixTableStep(x, |x| - 1 - i, tbl, prestr[..], caseSensitive);
      MaskUnfolds(|x| - i);
      s := Shl(s);
      i := i - 1;
    }
  }

  /** One byte is read into the word: the new word, the end of the run, and the shift it suggests. */
  lemma StateStep(X: seq<int>, w: int, Y: seq<int>, j: int, i: int, last: int, d: word, tbl: seq<word>, c: byte,
                  caseSensitive: bool)
    requires Scanning(X, w, Y, j, i, last, d) && 0 <= i && d != ZERO && SuffixTable(X, |X|, tbl, caseSensitive)
    requires Y[j + i] == Fold(c, caseSensitive)
    ensures var after := And(d, tbl[c]);
            && Read(X, Y, j + w, w - i, after)
            && (after == ZERO ==> Scanning(X, w, Y, j, i - 1, last, Shl(after)))
            && (after != ZERO && 0 < i ==> Scanning(X, w, Y, j, i - 1, i, Shl(after)))
  {
    hide SuffixColumn, Read, Ready, NoFactor, Fold, And, Shl, ZERO;
    var t, after := w - 1 - i, And(d, tbl[c]);
    ReadStep(X, Y, j + w, t, d, tbl, c, caseSensitive);
    ShiftStep(X, Y, j + w, t + 1, after);
    if after == ZERO {
      ReadZero(X, Y, j + w, t + 1);
      ShlZero();
    } else if 0 < i && Shl(after) == ZERO {
      ReadyZero(X, Y, j + w, t + 1);
    }
  }

  /** Between two reads of the window at j: bytes i+1.. have been read, and a word that has
      become zero rules out a match of the bytes from `last` - 1 on. */
  ghost predicate Scanning(X: seq<int>, w: int, Y: seq<int>, j: int, i: int, last: int, d: word) {
    && 1 <= w <= |X| && 0 <= j <= |Y| - w && -1 <= i < w && 1 <= last <= w
    && Ready(X, Y, j + w, w - 1 - i, d)
    && (d == ZERO ==> NoFactor(X, Y, j + w, w - last + 1))
    && (d != ZERO ==> last == i + 1)
  }

  lemma ScanningStarts(X: seq<int>, w: int, Y: seq<int>, j: int)
    requires 1 <= w <= |X| && 0 <= j <= |Y| - w
    ensures Scanning(X, w, Y, j, w - 1, w, ONES)
  {
    hide Ready, NoFactor;
    ReadyStarts(X, Y, j + w);
    assert ONES != 0;
  }

  lemma ScanningEnds(X: seq<int>, w: int, Y: seq<int>, j: int, i: int, last: int, d: word)
    requires Scanning(X, w, Y, j, i, last, d) && (i < 0 || d == ZERO)
    requires w <= 32 ==> NoneBefore(Tail(X, w), Y, j)
    ensures 1 <= last <= w && (w <= 32 ==> NoneBefore(Tail(X, w), Y, j + last))
  {
    hide Ready, NoneBefore;
    WindowAdvances(X, w, Y, j, last);
  }

  lemma Clamped(m: int, wordBits: int)
    requires 1 <= m && 32 <= wordBits
    ensures 1 <= Min(m, wordBits) <= m && (Min(m, wordBits) == m || 32 <= Min(m, wordBits))
  {
  }

  /** What BNDM answers: the last w bytes of the pattern occur, w being its length clamped. */
  ghost predicate BndmAnswer(x: seq<byte>, y: seq<byte>, wordBits: int, caseSensitive: bool)
    requires 1 <= wordBits
  {
    var w := Min(|x|, wordBits); w <= 32 && Occurs(x[|x| - w..], y, caseSensitive)
  }

  lemma AnswerIs(x: seq<byte>, y: seq<byte>, wordBits: int, caseSensitive: bool)
    requires 1 <= wordBits
    ensures Min(|x|, wordBits) <= |x|
    ensures var w := Min(|x|, wordBits);
            BndmAnswer(x, y, wordBits, caseSensitive) <==> w <= 32 && Occurs(x[|x| - w..], y, caseSensitive)
  {
  }

  lemma OccursInItself(x: seq<byte>, y: seq<byte>, caseSensitive: bool)
    ensures Occurs(x, x, caseSensitive)
    ensures |y| < |x| ==> !Occurs(x, y, caseSensitive)
  {
    assert MatchAt(x, x, 0, caseSensitive);
  }

  /** BNDM is a correct matcher for a pattern, over all texts, exactly when it has at most 32 bytes. */
  lemma BndmExact(x: seq<byte>, wordBits: int, caseSensitive: bool)
    requires 1 <= |x| && (wordBits == 32 || wordBits == 64)
    ensures (forall y :: BndmAnswer(x, y, wordBits, caseSensitive) <==> Occurs(x, y, caseSensitive)) <==> |x| <= 32
  {
    hide Occurs;
    if |x| <= 32 {
      assert x[|x| - |x|..] == x;
    } else {
      var y := if wordBits == 32 then x[|x| - 32..] else x;
      OccursInItself(x, y, caseSensitive);
      OccursInItself(y, y, caseSensitive);
      assert BndmAnswer(x, y, wordBits, caseSensitive) != Occurs(x, y, caseSensitive);
    }
  }

  /** So is Shift-Or. */
  lemma ShiftOrExact(x: seq<byte>, caseSensitive: bool)
    requires 1 <= |x|
    ensures (forall y :: Occurs(x[..Min(|x|, 32)], y, caseSensitive) <==> Occurs(x, y, caseSensitive)) <==> |x| <= 32
  {
    hide Occurs;
    if |x| <= 32 {
      assert x[..|x|] == x;
    } else {
      var y := x[..32];
      OccursInItself(x, y, caseSensitive);
      OccursInItself(y, y, caseSensitive);
    }
  }

  /** BNDM, for patterns of any length. `wordBits` is 8 * sizeof(void *), to which the window is
      clamped; the masks stay 32 bits wide. So a pattern of up to 32 bytes is found exactly where
      the specification matcher finds it; a longer one is searched by its last 32 bytes when
      pointers are 32 bits wide, and never found when they are 64 bits wide. */
  method BNDM(x: seq<byte>, y: seq<byte>, preNext: array<word>, wordBits: int, caseSensitive: bool) returns (r: bool)
    requires 1 <= |x| && preNext.Length == 256 && (wordBits == 32 || wordBits == 64)
    requires SuffixTable(FoldAll(x, caseSensitive), |x|, preNext[..], caseSensitive)
    ensures r <==> BndmAnswer(x, y, wordBits, caseSensitive)
  {
    hide *;
    AnswerIs(x, y, wordBits, caseSensitive);
    ghost var X, Y := FoldAll(x, caseSensitive), FoldAll(y, caseSensitive);
    var m := Min(|x|, wordBits);
    Clamped(|x|, wordBits);
    TailOccurs(x, m, y, caseSensitive);
    NoneYet(Tail(X, m), Y);
    var j := 0;
    while j <= |y| - m
      invariant 0 <= j && (m <= 32 ==> NoneBefore(Tail(X, m), Y, j))
    {
      var i, last, d := m - 1, m, ONES;
      ScanningStarts(X, m, Y, j);
      while i >= 0 && d != ZERO
        invariant -1 <= i < m && 1 <= last <= m && Scanning(X, m, Y, j, i, last, d)
        decreases i
      {
        FoldAllAt(y, j + i, caseSensitive);
        StateStep(X, m, Y, j, i, last, d, preNext[..], y[j + i], caseSensitive);
        d := And(d, preNext[y[j + i]]);
        i := i - 1;
        if d != ZERO {
          if i >= 0 {
            last := i + 1;
          } else {
            WholeWindow(X, m, Y, j, d);
            return true;
          }
        }
        d := Shl(d);
      }
      ScanningEnds(X, m, Y, j, i, last, d);
      j := j + last;
    }
    if m <= 32 {
      NoneLeft(Tail(X, m), Y, j);
    }
    return false;
  }

  lemma FoldAllAt(s: seq<byte>, k: int, caseSensitive: bool)
    requires 0 <= k < |s|
    ensures |FoldAll(s, caseSensitive)| == |s| && FoldAll(s, caseSensitive)[k] == Fold(s[k], caseSensitive)
  {
  }

  lemma TailOccurs(x: seq<byte>, w: int, y: seq<byte>, caseSensitive: bool)
    requires 0 <= w <= |x|
    ensures var X, Y := FoldAll(x, caseSensitive), FoldAll(y, caseSensitive);
            && |X| == |x| && |Y| == |y| && |Tail(X, w)| == w
            && (Occurs(x[|x| - w..], y, caseSensitive) <==> exists j :: At(Tail(X, w), Y, j))
  {
    hide Fold, Occurs, At;
    OccursFolds(x[|x| - w..], y, caseSensitive);
    assert FoldAll(x[|x| - w..], caseSensitive) == Tail(FoldAll(x, caseSensitive), w);
  }

  /** The live matcher: preProcessPattern then SUBSTR. */
  method Substr(x: seq<byte>, y: seq<byte>, wordBits: int, caseSensitive: bool) returns (r: bool)
    requires 1 <= |x| && (wordBits == 32 || wordBits == 64)
    ensures r <==> BndmAnswer(x, y, wordBits, caseSensitive)
    ensures |x| <= 32 ==> (r <==> Occurs(x, y, caseSensitive))
  {
    hide BndmAnswer, SuffixTable, Occurs, FoldAll;
    var preStr := new word[256](_ => ZERO);
    PreBNDM(x, preStr, caseSensitive);
    r := BNDM(x, y, preStr, wordBits, caseSensitive);
    BndmExact(x, wordBits, caseSensitive);
  }

  // ---------- Shift-Or ----------

  /** Bit b of w is clear exactly when c is X[b], for the first n bytes of X. */
  ghost predicate PrefixColumn(X: seq<int>, n: int, w: word, c: int) {
    0 <= n <= |X| && forall b: nat :: b < 32 ==> (Bit(w, b) <==> !(b < n && X[b] == c))
  }

  ghost predicate PrefixTable(X: seq<int>, n: int, tbl: seq<word>, caseSensitive: bool) {
    |tbl| == ASIZE && forall c: byte :: PrefixColumn(X, n, tbl[c], Fold(c, caseSensitive))
  }

  /** The first b + 1 bytes of X are the last bytes of Y[..t]. */
  predicate PrefixEnds(X: seq<int>, b: int, Y: seq<int>, t: int) {
    0 <= b < |X| && b < t <= |Y| && X[..b + 1] == Y[t - b - 1..t]
  }

  ghost predicate NowhereUpTo(X: seq<int>, b: int, Y: seq<int>, n: int) {
    forall t :: t <= n ==> !PrefixEnds(X, b, Y, t)
  }

  /** Bit b of the state is clear exactly when the first b + 1 bytes of X end at t. */
  ghost predicate StateAt(X: seq<int>, Y: seq<int>, t: int, state: word) {
    forall b: nat :: b < 32 ==> (Bit(state, b) <==> !PrefixEnds(X, b, Y, t))
  }

  lemma PrefixExtends(X: seq<int>, b: int, Y: seq<int>, t: int)
    requires 0 <= t < |Y|
    ensures PrefixEnds(X, b, Y, t + 1) <==> 0 <= b < |X| && X[b] == Y[t] && (b == 0 || PrefixEnds(X, b - 1, Y, t))
  {
    if 0 <= b < |X| && b <= t {
      assert X[..b + 1] == X[..b] + [X[b]];
      assert Y[t - b..t + 1] == Y[t - b..t] + [Y[t]];
    }
  }

  lemma StateAtStep(X: seq<int>, Y: seq<int>, t: int, state: word, w: word)
    requires 0 <= t < |Y| && StateAt(X, Y, t, state) && PrefixColumn(X, |X|, w, Y[t])
    ensures StateAt(X, Y, t + 1, Or(Shl(state), w))
  {
    hide PrefixEnds, Bit, Or, Shl;
    var after, n := Or(Shl(state), w), t + 1;
    forall b: nat | b < 32
      ensures Bit(after, b) <==> !PrefixEnds(X, b, Y, n)
    {
      OrBit(Shl(state), w, b);
      PrefixExtends(X, b, Y, t);
      if b == 0 {
        ShiftBitZero(state);
      } else {
        ShiftBit(state, b - 1);
      }
    }
  }

  lemma StateAtStart(X: seq<int>, Y: seq<int>)
    ensures StateAt(X, Y, 0, ONES)
  {
    hide Bit, ONES;
    forall b: nat | b < 32
      ensures Bit(ONES, b)
    {
      OnesHasBit(b);
    }
  }

  lemma PrefixTableStarts(X: seq<int>, tbl: seq<word>, caseSensitive: bool)
    requires |tbl| == ASIZE && forall c :: 0 <= c < ASIZE ==> tbl[c] == ONES
    ensures PrefixTable(X, 0, tbl, caseSensitive)
  {
    hide Bit, ONES;
    forall b: nat | b < 32
      ensures Bit(ONES, b)
    {
      OnesHasBit(b);
    }
  }

  lemma PrefixColumnStep(X: seq<int>, n: int, w: word, c: int)
    requires PrefixColumn(X, n, w, c) && n < |X|
    ensures PrefixColumn(X, n + 1, if X[n] == c then And(w, Not(Mask(n))) else w, c)
  {
    hide Bit, Mask, And, Not;
    var updated := if X[n] == c then And(w, Not(Mask(n))) else w;
    forall b: nat | b < 32
      ensures Bit(updated, b) <==> !(b < n + 1 && X[b] == c)
    {
      AndBit(w, Not(Mask(n)), b);
      NotBit(Mask(n), b);
      MaskHasBit(n, b);
    }
  }

  /** `updated` is `tbl` with s removed from the words of every byte equal to p under CHAR_EQU. */
  ghost predicate Cleared(tbl: seq<word>, updated: seq<word>, p: byte, s: word, caseSensitive: bool) {
    |tbl| == |updated| == ASIZE
    && forall c: byte :: updated[c] == if CharEqu(p, c, caseSensitive) then And(tbl[c], Not(s)) else tbl[c]
  }

  lemma PrefixTableStep(x: seq<byte>, n: int, tbl: seq<word>, updated: seq<word>, caseSensitive: bool)
    requires 0 <= n < |x| && Cleared(tbl, updated, x[n], Mask(n), caseSensitive)
    requires PrefixTable(FoldAll(x, caseSensitive), n, tbl, caseSensitive)
    ensures PrefixTable(FoldAll(x, caseSensitive), n + 1, updated, caseSensitive)
  {
    hide PrefixColumn, Fold, CharEqu, Mask, And, Not;
    var X := FoldAll(x, caseSensitive);
    forall c: byte
      ensures PrefixColumn(X, n + 1, updated[c], Fold(c, caseSensitive))
    {
      CharEquIsFold(x[n], c, caseSensitive);
      PrefixColumnStep(X, n, tbl[c], Fold(c, caseSensitive));
    }
  }

  lemma PrefixColumnAt(X: seq<int>, tbl: seq<word>, c: byte, caseSensitive: bool)
    requires PrefixTable(X, |X|, tbl, caseSensitive)
    ensures |tbl| == 256 && PrefixColumn(X, |X|, tbl[c], Fold(c, caseSensitive))
  {
  }

  /** The comparison `state < lim` asks for the whole pattern, or for its first 32 bytes. */
  lemma BelowLimMeansFound(X: seq<int>, Y: seq<int>, t: int, state: word)
    requires 1 <= |X| && StateAt(X, Y, t, state)
    ensures Below(state, Not(Low(Min(|X|, 32) - 1))) <==> PrefixEnds(X, Min(|X|, 32) - 1, Y, t)
  {
    hide PrefixEnds, Bit, Below, Not, Low;
    var k := Min(|X|, 32) - 1;
    BelowLimit(state, k);
    forall b: nat
      ensures PrefixEnds(X, b, Y, t) ==> b < |X|
    {
      PrefixEndsBounds(X, b, Y, t);
    }
    if Below(state, Not(Low(k))) {
      var b :| k <= b < 32 && !Bit(state, b);
      assert PrefixEnds(X, b, Y, t);
    }
    if PrefixEnds(X, k, Y, t) {
      assert !Bit(state, k);
    }
  }

  lemma PrefixEndsBounds(X: seq<int>, b: int, Y: seq<int>, t: int)
    ensures PrefixEnds(X, b, Y, t) ==> b < |X| && b < t
  {
  }

  /** lim after the bits of n bytes have been collected. */
  lemma LimStep(n: nat)
    ensures Or(Low(Min(n, 32)), Mask(n)) == Low(Min(n + 1, 32))
  {
    if n < 32 {
      LowUnfolds(n + 1);
    } else {
      MaskInWord(n);
      OrNothing(Low(32));
    }
  }

  lemma OrNothing(w: word)
    ensures Or(w, 0) == w
  {
  }

  lemma FoundIsAt(X: seq<int>, k: int, Y: seq<int>, t: int)
    requires 1 <= k <= |X|
    ensures PrefixEnds(X, k - 1, Y, t) <==> At(X[..k], Y, t - k)
    ensures At(X[..k], Y, t - k) ==> t <= |Y|
  {
  }

  lemma PrefixOccurs(x: seq<byte>, k: int, y: seq<byte>, caseSensitive: bool)
    requires 1 <= k <= |x|
    ensures var X, Y := FoldAll(x, caseSensitive), FoldAll(y, caseSensitive);
            && |X| == |x| && |Y| == |y|
            && (Occurs(x[..k], y, caseSensitive) <==> !NowhereUpTo(X, k - 1, Y, |Y|))
  {
    hide Fold, Occurs, At, PrefixEnds;
    var X, Y, b := FoldAll(x, caseSensitive), FoldAll(y, caseSensitive), k - 1;
    OccursFolds(x[..k], y, caseSensitive);
    FoldAllPrefix(x, k, caseSensitive);
    forall t
      ensures PrefixEnds(X, b, Y, t) ==> At(X[..k], Y, t - k)
    {
      FoundIsAt(X, k, Y, t);
    }
    if Occurs(x[..k], y, caseSensitive) {
      var j :| At(X[..k], Y, j);
      FoundIsAt(X, k, Y, j + k);
    }
  }

  lemma NotAtStart(X: seq<int>, b: int, Y: seq<int>)
    ensures NowhereUpTo(X, b, Y, 0)
  {
  }

  lemma OneIsLow()
    ensures Low(0) == ZERO && Mask(0) == ONE
  {
  }

  method ClearByte(preNext: array<word>, c: byte, s: word, caseSensitive: bool)
    requires preNext.Length == 256
    modifies preNext
    ensures Cleared(old(preNext[..]), preNext[..], c, s, caseSensitive)
  {
    hide And, Not;
    preNext[c] := And(preNext[c], Not(s));
    if !caseSensitive {
      if UpperCase(c) {
        preNext[c + DIFF] := And(preNext[c + DIFF], Not(s));
      } else if LowerCase(c) {
        preNext[c - DIFF] := And(preNext[c - DIFF], Not(s));
      }
    }
  }

  /** The file-level variable `lim` with the two functions that share it. */
  class ShiftOr {
    var lim: word

    method PreShiftOr(x: seq<byte>, preNext: array<word>, caseSensitive: bool)
      requires 1 <= |x| && preNext.Length == 256
      modifies this, preNext
      ensures PrefixTable(FoldAll(x, caseSensitive), |x|, preNext[..], caseSensitive)
      ensures lim == Not(Low(Min(|x|, 32) - 1))
    {
      hide PrefixTable, Cleared, CharEqu, Fold, FoldAll, Mask, Low, And, Or, Not, Shl, Shr, ZERO, ONE, ONES;
      ghost var X := FoldAll(x, caseSensitive);
      var i := 0;
      while i < 256
        invariant 0 <= i <= 256
        invariant forall c :: 0 <= c < i ==> preNext[c] == ONES
      {
        preNext[i] := ONES;
        i := i + 1;
      }
      PrefixTableStarts(X, preNext[..], caseSensitive);
      OneIsLow();
      i := 0;
      lim := ZERO;
      var j := ONE;
      while i < |x|
        invariant 0 <= i <= |x| && j == Mask(i) && lim == Low(Min(i, 32))
        invariant PrefixTable(X, i, preNext[..], caseSensitive)
      {
        ghost var tbl := preNext[..];
        ClearByte(preNext, x[i], j, caseSensitive);
        PrefixTableStep(x, i, tbl, preNext[..], caseSensitive);
        LimStep(i);
        lim := Or(lim, j);
        MaskUnfolds(i + 1);
        j := Shl(j);
        i := i + 1;
      }
      ShrLow(Min(|x|, 32));
      lim := Not(Shr(lim));
    }

    /** Shift-Or finds exactly the occurrences of the first 32 bytes of the pattern. */
    method Search(ghost x: seq<byte>, y: seq<byte>, preNext: array<word>, caseSensitive: bool) returns (r: bool)
      requires 1 <= |x| && preNext.Length == 256
      requires PrefixTable(FoldAll(x, caseSensitive), |x|, preNext[..], caseSensitive)
      requires lim == Not(Low(Min(|x|, 32) - 1))
      ensures r <==> Occurs(x[..Min(|x|, 32)], y, caseSensitive)
    {
      hide PrefixTable, Fold, FoldAll, Low, Or, Not, Shl, Below, ONES, StateAt, PrefixEnds, Occurs, PrefixColumn;
      ghost var X, Y, k := FoldAll(x, caseSensitive), FoldAll(y, caseSensitive), Min(|x|, 32);
      PrefixOccurs(x, k, y, caseSensitive);
      StateAtStart(X, Y);
      NotAtStart(X, k - 1, Y);
      var state, j := ONES, 0;
      while j < |y|
        invariant 0 <= j <= |y| && StateAt(X, Y, j, state)
        invariant NowhereUpTo(X, k - 1, Y, j)
      {
        FoldAllAt(y, j, caseSensitive);
        PrefixColumnAt(X, preNext[..], y[j], caseSensitive);
        StateAtStep(X, Y, j, state, preNext[y[j]]);
        state := Or(Shl(state), preNext[y[j]]);
        BelowLimMeansFound(X, Y, j + 1, state);
        if Below(state, lim) {
          return true;
        }
        j := j + 1;
      }
      return false;
    }
  }
}
