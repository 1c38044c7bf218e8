/** Boyer-Moore: suffixes, preBmGs, preBmBc and BM of filesearch/str_match.c.
    The two halves of the shared `prestr` buffer are two arrays here. */
module BoyerMoore {
  import opened Chars

  const XSIZE := 256

  /** The k bytes of X that end at i are the last k bytes of X. */
  predicate SuffixMatch(X: seq<int>, i: int, k: int) {
    0 <= k <= i + 1 <= |X| && Agree(X, i + 1 - k, i + 1, X, |X| - k, |X|)
  }

  /** k is the length of the longest common suffix of X[..i+1] and X. */
  predicate LongestSuffix(X: seq<int>, i: int, k: int) {
    SuffixMatch(X, i, k) && (k <= i < |X| - 1 ==> X[i - k] != X[|X| - 1 - k])
  }

  /** X agrees with itself moved right by s. */
  predicate Period(X: seq<int>, s: int) {
    1 <= s <= |X| && SuffixMatch(X, |X| - 1 - s, |X| - s)
  }

  /** After X[i+1..] matched and X[i] did not, moving X right by s contradicts nothing known
      about the text: the matched bytes still match, and X[i] is replaced by another byte. */
  predicate Compatible(X: seq<int>, i: int, s: int) {
    0 <= i < |X| && 1 <= s <= |X|
    && if s <= i then SuffixMatch(X, |X| - 1 - s, |X| - 1 - i) && X[i - s] != X[i] else Period(X, s)
  }

  /** r is the smallest compatible shift. */
  ghost predicate GoodShift(X: seq<int>, i: int, r: int) {
    Compatible(X, i, r) && forall s :: Compatible(X, i, s) ==> r <= s
  }

  ghost predicate GoodShifts(X: seq<int>, gs: seq<int>) {
    |gs| == |X| && forall i :: 0 <= i < |X| ==> GoodShift(X, i, gs[i])
  }

  /** The last position of c among the first n bytes of X is |X| - 1 - b; b is |X| if c is not there. */
  ghost predicate LastAmong(X: seq<int>, n: int, c: int, b: int) {
    1 <= b <= |X| && (b < |X| ==> |X| - 1 - b < n && X[|X| - 1 - b] == c)
    && forall k :: 0 <= k < n <= |X| - 1 && X[k] == c ==> b <= |X| - 1 - k
  }

  /** The bad-character table of the first n bytes of X, for every raw byte. */
  ghost predicate BadShifts(X: seq<int>, n: int, bc: seq<int>, caseSensitive: bool) {
    |bc| == ASIZE && forall c: byte :: LastAmong(X, n, Fold(c, caseSensitive), bc[c])
  }

  // ---------- suffixes ----------

  lemma SuffixExtend(X: seq<int>, i: int, k: int)
    requires SuffixMatch(X, i, k) && k <= i && X[i - k] == X[|X| - 1 - k]
    ensures SuffixMatch(X, i, k + 1)
  {
    assert X[i - k..i + 1] == [X[i - k]] + X[i + 1 - k..i + 1];
    assert X[|X| - 1 - k..|X|] == [X[|X| - 1 - k]] + X[|X| - k..|X|];
  }

  /** A run ending at f mirrors every stretch inside it at the right end of X. */
  lemma RunMirrors(X: seq<int>, f: int, g: int, lo: int, hi: int)
    requires -1 <= g <= f < |X| && SuffixMatch(X, f, f - g) && g < lo <= hi <= f + 1
    ensures Agree(X, lo, hi, X, lo + |X| - 1 - f, hi + |X| - 1 - f)
    ensures lo < hi ==> X[lo] == X[lo + |X| - 1 - f]
  {
    hide Agree;
    AgreeOn(X, f + 1 - (f - g), f + 1, X, |X| - (f - g), |X|, lo, hi, lo + |X| - 1 - f, hi + |X| - 1 - f);
  }

  /** Inside a known run, the longest suffix at i is read off its mirror image. */
  lemma SuffixCopied(X: seq<int>, i: int, f: int, g: int, s: int)
    requires -1 <= g < i < f < |X| - 1 && SuffixMatch(X, f, f - g)
    requires LongestSuffix(X, i + |X| - 1 - f, s) && s < i - g
    ensures LongestSuffix(X, i, s)
  {
    hide Agree;
    var i' := i + |X| - 1 - f;
    RunMirrors(X, f, g, i - s, i + 1);
    RunMirrors(X, f, g, i + 1 - s, i + 1);
    AgreeFlip(X, i' + 1 - s, i' + 1, X, |X| - s, |X|);
    AgreeBoth(X, i + 1 - s, i + 1, X, i' + 1 - s, i' + 1, X, |X| - s, |X|);
  }

  /** Otherwise the run can be resumed at its left end without comparing anything again. */
  lemma SuffixResumed(X: seq<int>, i: int, f: int, g: int, s: int)
    requires -1 <= g < i < f < |X| - 1 && SuffixMatch(X, f, f - g)
    requires LongestSuffix(X, i + |X| - 1 - f, s) && s >= i - g
    ensures SuffixMatch(X, i, i - g)
  {
    hide Agree;
    var i', k := i + |X| - 1 - f, i - g;
    RunMirrors(X, f, g, g + 1, i + 1);
    AgreeOn(X, i' + 1 - s, i' + 1, X, |X| - s, |X|, i' + 1 - k, i' + 1, |X| - k, |X|);
    AgreeFlip(X, i' + 1 - k, i' + 1, X, |X| - k, |X|);
    AgreeBoth(X, i + 1 - k, i + 1, X, i' + 1 - k, i' + 1, X, |X| - k, |X|);
  }

  lemma SuffixStarts(X: seq<int>)
    requires |X| > 0
    ensures LongestSuffix(X, |X| - 1, |X|)
  {
  }

  lemma SuffixEmpty(X: seq<int>, i: int)
    requires -1 <= i < |X|
    ensures SuffixMatch(X, i, 0)
  {
  }

  lemma SuffixStops(X: seq<int>, f: int, g: int)
    requires -1 <= g <= f < |X| && SuffixMatch(X, f, f - g) && (g >= 0 && f < |X| - 1 ==> X[g] != X[g + |X| - 1 - f])
    ensures LongestSuffix(X, f, f - g)
  {
  }

  /** The inner loop of suffixes: extends the run ending at f to the left as far as it goes. */
  method ScanRun(x: seq<byte>, f: int, start: int, caseSensitive: bool) returns (g: int)
    requires -1 <= start <= f < |x| && SuffixMatch(FoldAll(x, caseSensitive), f, f - start)
    ensures -1 <= g <= f && LongestSuffix(FoldAll(x, caseSensitive), f, f - g)
    ensures SuffixMatch(FoldAll(x, caseSensitive), f, f - g)
  {
    hide *;
    ghost var X := FoldAll(x, caseSensitive);
    var m := |x|;
    g := start;
    while g >= 0 && CharEqu(x[g], x[g + m - 1 - f], caseSensitive)
      invariant -1 <= g <= f && SuffixMatch(X, f, f - g)
    {
      CharEquIsFold(x[g], x[g + m - 1 - f], caseSensitive);
      SuffixExtend(X, f, f - g);
      g := g - 1;
    }
    if g >= 0 {
      CharEquIsFold(x[g], x[g + m - 1 - f], caseSensitive);
    }
    SuffixStops(X, f, g);
  }

  method Suffixes(x: seq<byte>, suff: array<int>, caseSensitive: bool)
    requires 1 <= |x| <= suff.Length
    modifies suff
    ensures forall i :: 0 <= i < |x| ==> LongestSuffix(FoldAll(x, caseSensitive), i, suff[i])
  {
    hide *;
    ghost var X := FoldAll(x, caseSensitive);
    var m := |x|;
    SuffixStarts(X);
    var f: int, g := *, m - 1;
    suff[m - 1] := m;
    var i := m - 2;
    while i >= 0
      invariant -1 <= i <= m - 2 && -1 <= g <= m - 1
      invariant i < g || (g <= i < f < m - 1 && SuffixMatch(X, f, f - g))
      invariant forall k :: i < k < m ==> LongestSuffix(X, k, suff[k])
    {
      if i > g && suff[i + m - 1 - f] < i - g {
        SuffixCopied(X, i, f, g, suff[i + m - 1 - f]);
        suff[i] := suff[i + m - 1 - f];
      } else {
        if i > g {
          SuffixResumed(X, i, f, g, suff[i + m - 1 - f]);
        }
        if i < g {
          g := i;
        }
        if g == i {
          SuffixEmpty(X, i);
        }
        f := i;
        g := ScanRun(x, f, g, caseSensitive);
        suff[i] := f - g;
      }
      i := i - 1;
    }
  }

  // ---------- preBmGs ----------

  lemma SuffixMatchAt(X: seq<int>, i: int, k: int, t: int)
    requires SuffixMatch(X, i, k) && 0 <= t < k
    ensures X[i - t] == X[|X| - 1 - t]
  {
    hide Agree;
    AgreeOn(X, i + 1 - k, i + 1, X, |X| - k, |X|, i - t, i + 1, |X| - 1 - t, |X|);
  }

  /** Every longest suffix yields a compatible shift ... */
  lemma SuffixGivesShift(X: seq<int>, i: int, k: int)
    requires 0 <= i <= |X| - 2 && LongestSuffix(X, i, k)
    ensures 0 <= k <= i + 1 && Compatible(X, |X| - 1 - k, |X| - 1 - i)
  {
  }

  /** ... and every compatible shift that keeps X[i] inside the window comes from one. */
  lemma ShiftGivesSuffix(X: seq<int>, p: int, s: int, k: int)
    requires Compatible(X, p, s) && s <= p && LongestSuffix(X, |X| - 1 - s, k)
    ensures k == |X| - 1 - p
  {
    var i, j := |X| - 1 - s, |X| - 1 - p;
    if k < j {
      SuffixMatchAt(X, i, j, k);
    }
    if j < k {
      SuffixMatchAt(X, i, k, j);
    }
  }

  lemma WholePrefixIsPeriod(X: seq<int>, i: int, k: int)
    requires 0 <= i <= |X| - 2 && LongestSuffix(X, i, k)
    ensures k == i + 1 <==> Period(X, |X| - 1 - i)
  {
    if Period(X, |X| - 1 - i) && k <= i {
      SuffixMatchAt(X, i, i + 1, k);
    }
  }

  /** r is the smallest period beyond p. */
  ghost predicate LeastPeriodAbove(X: seq<int>, p: int, r: int) {
    p < r && Period(X, r) && forall s :: p < s && Period(X, s) ==> r <= s
  }

  /** r is compatible, and least among the shifts beyond p and those of at least |X| - i. */
  ghost predicate LeastSoFar(X: seq<int>, p: int, i: int, r: int) {
    Compatible(X, p, r) && forall s :: Compatible(X, p, s) && (p < s || |X| - i <= s) ==> r <= s
  }

  /** Every period below d is at most j. */
  ghost predicate PeriodsSeen(X: seq<int>, d: int, j: int) {
    forall s :: Period(X, s) && s < d ==> s <= j
  }

  lemma FullPeriod(X: seq<int>)
    requires |X| > 0
    ensures Period(X, |X|) && PeriodsSeen(X, 0, 0)
  {
  }

  lemma PeriodFound(X: seq<int>, d: int, j: int, p: int)
    requires Period(X, d) && PeriodsSeen(X, d, j) && j <= p < d
    ensures LeastPeriodAbove(X, p, d)
  {
  }

  lemma PeriodStep(X: seq<int>, i: int, k: int, j: int)
    requires |X| > 0 && 0 <= i < |X| && LongestSuffix(X, i, k) && PeriodsSeen(X, |X| - 1 - i, j)
    ensures i == |X| - 1 ==> PeriodsSeen(X, 1, j)
    ensures i < |X| - 1 && k == i + 1 ==> Period(X, |X| - 1 - i)
    ensures PeriodsSeen(X, |X| - i, if k == i + 1 && j < |X| - 1 - i then |X| - 1 - i else j)
  {
    if i < |X| - 1 {
      WholePrefixIsPeriod(X, i, k);
    }
  }

  lemma PeriodsDone(X: seq<int>, j: int, p: int, r: int)
    requires |X| > 0 && PeriodsSeen(X, |X|, j) && 0 <= p < |X|
    requires if p < j then LeastPeriodAbove(X, p, r) else r == |X|
    ensures LeastSoFar(X, p, 0, r)
  {
    FullPeriod(X);
  }

  /** Recording the shift of position i keeps every entry least so far. */
  lemma ShiftStep(X: seq<int>, i: int, k: int, p: int, r: int)
    requires 0 <= i <= |X| - 2 && LongestSuffix(X, i, k) && LeastSoFar(X, p, i, r)
    ensures 0 <= k <= i + 1
    ensures LeastSoFar(X, p, i + 1, if p == |X| - 1 - k then |X| - 1 - i else r)
  {
    hide SuffixMatch, Period;
    SuffixGivesShift(X, i, k);
    var d := |X| - 1 - i;
    hide Compatible, LongestSuffix;
    if Compatible(X, p, d) && d <= p {
      ShiftGivesSuffix(X, p, d, k);
    }
  }

  ghost predicate AllLeast(X: seq<int>, i: int, gs: seq<int>) {
    |gs| == |X| && forall p :: 0 <= p < |X| ==> LeastSoFar(X, p, i, gs[p])
  }

  lemma ShiftStepAll(X: seq<int>, i: int, k: int, gs: seq<int>)
    requires 0 <= i <= |X| - 2 && LongestSuffix(X, i, k) && AllLeast(X, i, gs)
    ensures 0 <= k <= i + 1 && AllLeast(X, i + 1, gs[|X| - 1 - k := |X| - 1 - i])
  {
    hide LeastSoFar, LongestSuffix;
    SuffixGivesShift(X, i, k);
    var updated := gs[|X| - 1 - k := |X| - 1 - i];
    forall p | 0 <= p < |X|
      ensures LeastSoFar(X, p, i + 1, updated[p])
    {
      ShiftStep(X, i, k, p, gs[p]);
    }
  }

  lemma ShiftsDone(X: seq<int>, gs: seq<int>)
    requires AllLeast(X, |X| - 1, gs)
    ensures GoodShifts(X, gs)
  {
    forall p | 0 <= p < |X|
      ensures GoodShift(X, p, gs[p])
    {
      assert LeastSoFar(X, p, |X| - 1, gs[p]);
    }
  }

  lemma PeriodsAll(X: seq<int>, j: int, gs: seq<int>)
    requires 0 < |X| == |gs| && PeriodsSeen(X, |X|, j)
    requires forall p :: 0 <= p < |X| ==> if p < j then LeastPeriodAbove(X, p, gs[p]) else gs[p] == |X|
    ensures AllLeast(X, 0, gs)
  {
    hide LeastSoFar, PeriodsSeen, LeastPeriodAbove;
    forall p | 0 <= p < |X|
      ensures LeastSoFar(X, p, 0, gs[p])
    {
      PeriodsDone(X, j, p, gs[p]);
    }
  }

  method PreBmGs(x: seq<byte>, bmGs: array<int>, caseSensitive: bool)
    requires 1 <= |x| <= XSIZE && bmGs.Length == XSIZE
    modifies bmGs
    ensures GoodShifts(FoldAll(x, caseSensitive), bmGs[..|x|])
  {
    hide *;
    ghost var X := FoldAll(x, caseSensitive);
    var m := |x|;
    var suff := new int[XSIZE];
    Suffixes(x, suff, caseSensitive);
    ghost var sf := suff[..];
    var i := 0;
    while i < m
      invariant 0 <= i <= m
      invariant forall p :: 0 <= p < i ==> bmGs[p] == m
      invariant suff[..] == sf
    {
      bmGs[i] := m;
      i := i + 1;
    }
    FullPeriod(X);
    var j := 0;
    i := m - 1;
    while i >= 0
      invariant -1 <= i < m && 0 <= j < m && j <= m - 1 - i
      invariant PeriodsSeen(X, m - 1 - i, j)
      invariant forall p :: 0 <= p < j ==> LeastPeriodAbove(X, p, bmGs[p])
      invariant forall p :: j <= p < m ==> bmGs[p] == m
      invariant suff[..] == sf
    {
      PeriodStep(X, i, sf[i], j);
      ghost var j0 := j;
      if suff[i] == i + 1 {
        while j < m - 1 - i
          invariant j0 <= j && (j <= m - 1 - i || j == j0)
          invariant forall p :: 0 <= p < j ==> LeastPeriodAbove(X, p, bmGs[p])
          invariant forall p :: j <= p < m ==> bmGs[p] == m
          invariant suff[..] == sf
        {
          if bmGs[j] == m {
            PeriodFound(X, m - 1 - i, j0, j);
            bmGs[j] := m - 1 - i;
          }
          j := j + 1;
        }
      }
      i := i - 1;
    }
    PeriodsAll(X, j, bmGs[..m]);
    i := 0;
    while i <= m - 2
      invariant 0 <= i <= m - 1
      invariant AllLeast(X, i, bmGs[..m])
      invariant suff[..] == sf
    {
      ghost var gs := bmGs[..m];
      ShiftStepAll(X, i, sf[i], gs);
      bmGs[m - 1 - suff[i]] := m - 1 - i;
      assert bmGs[..m] == gs[m - 1 - sf[i] := m - 1 - i];
      i := i + 1;
    }
    ShiftsDone(X, bmGs[..m]);
  }

  // ---------- preBmBc ----------

  lemma BadStarts(X: seq<int>, bc: seq<int>, caseSensitive: bool)
    requires 0 < |X| && |bc| == ASIZE && forall c :: 0 <= c < ASIZE ==> bc[c] == |X|
    ensures BadShifts(X, 0, bc, caseSensitive)
  {
  }

  lemma LastAmongStep(X: seq<int>, i: int, c: int, b: int)
    requires 0 <= i < |X| - 1 && LastAmong(X, i, c, b)
    ensures LastAmong(X, i + 1, c, if X[i] == c then |X| - 1 - i else b)
  {
  }

  lemma BadStep(x: seq<byte>, i: int, bc: seq<int>, updated: seq<int>, caseSensitive: bool)
    requires 0 <= i < |x| - 1 && |updated| == ASIZE
    requires BadShifts(FoldAll(x, caseSensitive), i, bc, caseSensitive)
    requires forall c: byte :: updated[c] == if CharEqu(x[i], c, caseSensitive) then |x| - 1 - i else bc[c]
    ensures BadShifts(FoldAll(x, caseSensitive), i + 1, updated, caseSensitive)
  {
    hide LastAmong, CharEqu, Fold;
    var X := FoldAll(x, caseSensitive);
    forall c: byte
      ensures LastAmong(X, i + 1, Fold(c, caseSensitive), updated[c])
    {
      CharEquIsFold(x[i], c, caseSensitive);
      LastAmongStep(X, i, Fold(c, caseSensitive), bc[c]);
    }
  }

  method PreBmBc(x: seq<byte>, bmBc: array<int>, caseSensitive: bool)
    requires 1 <= |x| && bmBc.Length == 256
    modifies bmBc
    ensures BadShifts(FoldAll(x, caseSensitive), |x| - 1, bmBc[..], caseSensitive)
  {
    hide BadShifts, Fold;
    ghost var X := FoldAll(x, caseSensitive);
    var m := |x|;
    var i := 0;
    while i < ASIZE
      invariant 0 <= i <= ASIZE
      invariant forall c :: 0 <= c < i ==> bmBc[c] == m
    {
      bmBc[i] := m;
      i := i + 1;
    }
    BadStarts(X, bmBc[..], caseSensitive);
    i := 0;
    while i < m - 1
      invariant 0 <= i <= m - 1
      invariant BadShifts(X, i, bmBc[..], caseSensitive)
    {
      ghost var bc := bmBc[..];
      var c := x[i];
      bmBc[c] := m - i - 1;
      if !caseSensitive {
        if UpperCase(c) {
          bmBc[c + DIFF] := m - i - 1;
        } else if LowerCase(c) {
          bmBc[c - DIFF] := m - i - 1;
        }
      }
      BadStep(x, i, bc, bmBc[..], caseSensitive);
      i := i + 1;
    }
  }

  // ---------- BM ----------

  /** X[i+1..] matches Y at offset j. */
  predicate Matched(X: seq<int>, Y: seq<int>, j: int, i: int) {
    0 <= j <= |Y| - |X| && -1 <= i < |X| && Agree(X, i + 1, |X|, Y, j + i + 1, j + |X|)
  }

  lemma MatchedExtend(X: seq<int>, Y: seq<int>, j: int, i: int)
    requires Matched(X, Y, j, i) && i >= 0 && X[i] == Y[j + i]
    ensures Matched(X, Y, j, i - 1)
  {
    assert X[i..|X|] == [X[i]] + X[i + 1..|X|];
    assert Y[j + i..j + |X|] == [Y[j + i]] + Y[j + i + 1..j + |X|];
  }

  lemma MatchedIs(X: seq<int>, Y: seq<int>, j: int, i: int)
    requires Matched(X, Y, j, i)
    ensures 0 <= j <= |Y| - |X| && -1 <= i < |X|
  {
  }

  lemma MatchedStretch(X: seq<int>, Y: seq<int>, j: int, i: int, lo: int, hi: int)
    requires Matched(X, Y, j, i) && i < lo <= hi <= |X|
    ensures 0 <= j <= |Y| - |X| && Agree(X, lo, hi, Y, j + lo, j + hi)
    ensures lo < hi ==> X[lo] == Y[j + lo]
  {
    hide Agree;
    AgreeOn(X, i + 1, |X|, Y, j + i + 1, j + |X|, lo, hi, j + lo, j + hi);
  }

  /** Where the matched part of one window meets a later occurrence, X agrees with itself. */
  lemma OverlapAgrees(X: seq<int>, Y: seq<int>, j: int, i: int, s: int, lo: int)
    requires Matched(X, Y, j, i) && At(X, Y, j + s) && 1 <= s <= |X| && i < lo <= |X| && s <= lo
    ensures Agree(X, lo - s, |X| - s, X, lo, |X|)
  {
    hide Agree, At, Matched;
    MatchedStretch(X, Y, j, i, lo, |X|);
    AtStretch(X, Y, j + s, lo - s, |X| - s);
    AgreeBoth(X, lo - s, |X| - s, Y, j + lo, j + |X|, X, lo, |X|);
  }

  lemma CompatibleInside(X: seq<int>, i: int, s: int)
    requires 1 <= s <= i < |X| && Agree(X, i + 1 - s, |X| - s, X, i + 1, |X|) && X[i - s] != X[i]
    ensures Compatible(X, i, s)
  {
  }

  lemma CompatibleBeyond(X: seq<int>, i: int, s: int)
    requires 0 <= i < s <= |X| && Agree(X, 0, |X| - s, X, s, |X|)
    ensures Compatible(X, i, s)
  {
  }

  /** An occurrence s to the right of a mismatch makes s a compatible shift. */
  lemma OccurrenceIsCompatible(X: seq<int>, Y: seq<int>, j: int, i: int, s: int)
    requires Matched(X, Y, j, i) && i >= 0 && X[i] != Y[j + i]
    requires 1 <= s <= |X| && At(X, Y, j + s)
    ensures Compatible(X, i, s)
    ensures s <= i ==> X[i - s] == Y[j + i]
  {
    hide Compatible, SuffixMatch, Agree, At, Matched;
    MatchedIs(X, Y, j, i);
    if s <= i {
      AtStretch(X, Y, j + s, i - s, i - s);
      OverlapAgrees(X, Y, j, i, s, i + 1);
      CompatibleInside(X, i, s);
    } else {
      OverlapAgrees(X, Y, j, i, s, s);
      CompatibleBeyond(X, i, s);
    }
  }

  /** No occurrence lies strictly inside the larger of the two shifts. */
  lemma ShiftsAreSafe(X: seq<int>, Y: seq<int>, j: int, i: int, g: int, b: int, s: int)
    requires Matched(X, Y, j, i) && i >= 0 && X[i] != Y[j + i]
    requires GoodShift(X, i, g) && LastAmong(X, |X| - 1, Y[j + i], b)
    requires 1 <= s && (s < g || s < b - |X| + 1 + i)
    ensures !At(X, Y, j + s)
  {
    if At(X, Y, j + s) {
      OccurrenceIsCompatible(X, Y, j, i, s);
    }
  }

  lemma Advance(X: seq<int>, Y: seq<int>, j: int, i: int, g: int, b: int, shift: int)
    requires Matched(X, Y, j, i) && i >= 0 && X[i] != Y[j + i] && NoneBefore(X, Y, j)
    requires GoodShift(X, i, g) && LastAmong(X, |X| - 1, Y[j + i], b)
    requires shift <= g || shift <= b - |X| + 1 + i
    ensures NoneBefore(X, Y, j + shift) && 1 <= g
  {
    if At(X, Y, j) {
      AtStretch(X, Y, j, i, i);
    }
    forall e | e < j + shift
      ensures !At(X, Y, e)
    {
      if j < e {
        ShiftsAreSafe(X, Y, j, i, g, b, e - j);
      }
    }
  }

  lemma MatchedStarts(X: seq<int>, Y: seq<int>, j: int)
    requires 0 <= j <= |Y| - |X| && 0 < |X|
    ensures Matched(X, Y, j, |X| - 1)
  {
  }

  lemma MatchedAll(X: seq<int>, Y: seq<int>, j: int)
    requires Matched(X, Y, j, -1)
    ensures At(X, Y, j)
  {
    assert X[0..|X|] == X;
  }

  lemma TablesAt(X: seq<int>, gs: seq<int>, bc: seq<int>, i: int, c: byte, caseSensitive: bool)
    requires GoodShifts(X, gs) && BadShifts(X, |X| - 1, bc, caseSensitive) && 0 <= i < |X|
    ensures GoodShift(X, i, gs[i]) && LastAmong(X, |X| - 1, Fold(c, caseSensitive), bc[c])
  {
  }

  /** Boyer-Moore agrees with the specification matcher. */
  method BM(x: seq<byte>, y: seq<byte>, bmGs: array<int>, bmBc: array<int>, caseSensitive: bool) returns (r: bool)
    requires 1 <= |x| <= XSIZE && bmGs.Length == XSIZE && bmBc.Length == 256
    requires GoodShifts(FoldAll(x, caseSensitive), bmGs[..|x|])
    requires BadShifts(FoldAll(x, caseSensitive), |x| - 1, bmBc[..], caseSensitive)
    ensures r <==> Occurs(x, y, caseSensitive)
  {
    hide *;
    ghost var X, Y := FoldAll(x, caseSensitive), FoldAll(y, caseSensitive);
    var m := |x|;
    var j := 0;
    NoneYet(X, Y);
    while j <= |y| - m
      invariant 0 <= j && NoneBefore(X, Y, j)
    {
      var i := m - 1;
      MatchedStarts(X, Y, j);
      while i >= 0 && CharEqu(x[i], y[i + j], caseSensitive)
        invariant -1 <= i < m && Matched(X, Y, j, i)
      {
        CharEquIsFold(x[i], y[i + j], caseSensitive);
        MatchedExtend(X, Y, j, i);
        i := i - 1;
      }
      if i < 0 {
        MatchedAll(X, Y, j);
        OccursFolds(x, y, caseSensitive);
        return true;
      }
      CharEquIsFold(x[i], y[i + j], caseSensitive);
      TablesAt(X, bmGs[..m], bmBc[..], i, y[i + j], caseSensitive);
      var bad := bmBc[y[i + j]] - m + 1 + i;
      var shift := if bmGs[i] > bad then bmGs[i] else bad;
      Advance(X, Y, j, i, bmGs[i], bmBc[y[i + j]], shift);
      j := j + shift;
    }
    NoneLeft(X, Y, j);
    OccursFolds(x, y, caseSensitive);
    return false;
  }
}
