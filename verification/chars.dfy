/** Bytes of file names, the character equality CHAR_EQU of filesearch/str_match.c, and
    the reference notion of an occurrence that every fast matcher is measured against. */
module Chars {

  type byte = b: int | 0 <= b < 256

  const DIFF := 32  // 'a' - 'A'
  const ASIZE := 256

  function Max(a: int, b: int): int { if a > b then a else b }

  function Min(a: int, b: int): int { if a < b then a else b }

  predicate LowerCase(c: int) { 97 <= c <= 122 }

  predicate UpperCase(c: int) { 65 <= c <= 90 }

  /** CHAR_EQU: plain equality, or equality up to ASCII letter case. */
  predicate CharEqu(a: byte, b: byte, caseSensitive: bool) {
    if caseSensitive then a == b
    else a == b || (UpperCase(a) && b - a == DIFF) || (LowerCase(a) && a - b == DIFF)
  }

  /** The canonical representative of a byte's class under CHAR_EQU. */
  function Fold(c: byte, caseSensitive: bool): byte {
    if !caseSensitive && UpperCase(c) then c + DIFF else c
  }

  /** CHAR_EQU is the kernel of Fold, hence an equivalence relation. */
  lemma CharEquIsFold(a: byte, b: byte, caseSensitive: bool)
    ensures CharEqu(a, b, caseSensitive) <==> Fold(a, caseSensitive) == Fold(b, caseSensitive)
  {
  }

  const UPPER := "ABCDEFGHIJKLMNOPQRSTUVWXYZ"
  const LOWER := "abcdefghijklmnopqrstuvwxyz"

  /** a and b are the same letter of the alphabet, upper and lower case in this order. */
  ghost predicate CasePair(a: byte, b: byte) {
    exists k :: 0 <= k < 26 && a as char == UPPER[k] && b as char == LOWER[k]
  }

  /** The bytes that CHAR_EQU does not tell apart: without case the two forms of each of the 26 letters, and
      nothing else. */
  lemma CharEquExact(a: byte, b: byte)
    ensures CharEqu(a, b, true) <==> a == b
    ensures CharEqu(a, b, false) <==> a == b || CasePair(a, b) || CasePair(b, a)
  {
    CasePairIs(a, b);
    CasePairIs(b, a);
  }

  lemma CasePairIs(a: byte, b: byte)
    ensures CasePair(a, b) <==> 65 <= a <= 90 && b == a + 32
  {
    hide UPPER, LOWER;
    forall k | 0 <= k < 26
      ensures |UPPER| == 26 && |LOWER| == 26 && UPPER[k] as int == 65 + k && LOWER[k] as int == 97 + k
    {
      LettersAre(k);
    }
    LettersAre(0);
    if 65 <= a <= 90 && b == a + 32 {
      assert a as char == UPPER[a - 65] && b as char == LOWER[a - 65];
    }
  }

  lemma LettersAre(k: int)
    requires 0 <= k < 26
    ensures |UPPER| == 26 && |LOWER| == 26 && UPPER[k] as int == 65 + k && LOWER[k] as int == 97 + k
  {
    UpperIs(k);
    LowerIs(k);
    hide *;
  }

  lemma UpperIs(k: int)
    requires 0 <= k < 26
    ensures |UPPER| == 26 && UPPER[k] as int == 65 + k
  {
  }

  lemma LowerIs(k: int)
    requires 0 <= k < 26
    ensures |LOWER| == 26 && LOWER[k] as int == 97 + k
  {
  }

  function FoldAll(s: seq<byte>, caseSensitive: bool): (r: seq<int>)
    ensures |r| == |s|
    ensures forall k :: 0 <= k < |s| ==> r[k] == Fold(s[k], caseSensitive)
  {
    seq(|s|, k requires 0 <= k < |s| => Fold(s[k], caseSensitive))
  }

  lemma FoldAllPrefix(s: seq<byte>, m: nat, caseSensitive: bool)
    requires m <= |s|
    ensures FoldAll(s[..m], caseSensitive) == FoldAll(s, caseSensitive)[..m]
  {
  }

  /** Pattern x lies on text y at offset j, byte by byte up to CHAR_EQU. */
  predicate MatchAt(x: seq<byte>, y: seq<byte>, j: int, caseSensitive: bool) {
    0 <= j <= |y| - |x| && forall k :: 0 <= k < |x| ==> CharEqu(x[k], y[j + k], caseSensitive)
  }

  ghost predicate Occurs(x: seq<byte>, y: seq<byte>, caseSensitive: bool) {
    exists j :: MatchAt(x, y, j, caseSensitive)
  }

  lemma SliceOfSlice<T>(X: seq<T>, a: int, b: int, c: int, d: int)
    requires 0 <= a <= c <= d <= b <= |X|
    ensures X[a..b][c - a..d - a] == X[c..d]
  {
    var whole, part := X[a..b][c - a..d - a], X[c..d];
    forall k | 0 <= k < d - c
      ensures whole[k] == part[k]
    {
      assert whole[k] == X[a..b][c - a + k] == X[c + k];
    }
  }

  /** Equal stretches X[a..b] and Y[a'..b'] are equal on every part X[c..d] of the stretch. */
  lemma SubSlice<T>(X: seq<T>, a: int, b: int, Y: seq<T>, a': int, b': int, c: int, d: int, c': int, d': int)
    requires 0 <= a <= c <= d <= b <= |X| && 0 <= a' <= b' <= |Y| && b - a == b' - a'
    requires X[a..b] == Y[a'..b'] && c - a == c' - a' && d - c == d' - c'
    ensures X[c..d] == Y[c'..d']
    ensures c < b ==> X[c] == Y[c']
  {
    SliceOfSlice(X, a, b, c, d);
    SliceOfSlice(Y, a', b', c', d');
    if c < b {
      assert X[a..b][c - a] == Y[a'..b'][c' - a'];
    }
  }

  /** The stretch of X from a to b is that of Y from a' to b'. */
  predicate Agree(X: seq<int>, a: int, b: int, Y: seq<int>, a': int, b': int) {
    0 <= a <= b <= |X| && 0 <= a' <= b' <= |Y| && X[a..b] == Y[a'..b']
  }

  lemma AgreeOn(X: seq<int>, a: int, b: int, Y: seq<int>, a': int, b': int, c: int, d: int, c': int, d': int)
    requires Agree(X, a, b, Y, a', b') && a <= c <= d <= b && c - a == c' - a' && d - c == d' - c'
    ensures b - a == b' - a' && Agree(X, c, d, Y, c', d')
    ensures c < b ==> 0 <= c < |X| && 0 <= c' < |Y| && X[c] == Y[c']
  {
    assert |X[a..b]| == |Y[a'..b']|;
    SubSlice(X, a, b, Y, a', b', c, d, c', d');
  }

  /** Two stretches that agree with the same one agree. */
  lemma AgreeBoth(X: seq<int>, a: int, b: int, Y: seq<int>, a': int, b': int, Z: seq<int>, a'': int, b'': int)
    requires Agree(X, a, b, Y, a', b') && Agree(Z, a'', b'', Y, a', b')
    ensures Agree(X, a, b, Z, a'', b'') && Agree(Z, a'', b'', X, a, b)
  {
  }

  lemma AgreeFlip(X: seq<int>, a: int, b: int, Y: seq<int>, a': int, b': int)
    requires Agree(X, a, b, Y, a', b')
    ensures Agree(Y, a', b', X, a, b)
  {
  }

  /** Stretches that follow one another. */
  lemma AgreeJoin(X: seq<int>, a: int, b: int, c: int, Y: seq<int>, a': int, b': int, c': int)
    requires Agree(X, a, b, Y, a', b') && Agree(X, b, c, Y, b', c')
    ensures Agree(X, a, c, Y, a', c')
  {
    assert X[a..c] == X[a..b] + X[b..c] && Y[a'..c'] == Y[a'..b'] + Y[b'..c'];
  }

  /** The same notion over already folded sequences, where equality is plain. */
  predicate At(x: seq<int>, y: seq<int>, j: int) {
    0 <= j <= |y| - |x| && y[j..j + |x|] == x
  }

  /** Everything before j has been ruled out. */
  ghost predicate NoneBefore(x: seq<int>, y: seq<int>, j: int) {
    forall e :: e < j ==> !At(x, y, e)
  }

  lemma NoneYet(x: seq<int>, y: seq<int>)
    ensures NoneBefore(x, y, 0)
  {
  }

  lemma NoneLeft(x: seq<int>, y: seq<int>, j: int)
    requires NoneBefore(x, y, j) && j > |y| - |x|
    ensures !exists e :: At(x, y, e)
  {
  }

  /** An occurrence of x in y is one of every stretch of x. */
  lemma AtStretch(x: seq<int>, y: seq<int>, j: int, lo: int, hi: int)
    requires At(x, y, j) && 0 <= lo <= hi <= |x|
    ensures 0 <= j <= |y| - |x| && Agree(x, lo, hi, y, j + lo, j + hi)
    ensures lo < |x| ==> x[lo] == y[j + lo]
  {
    assert x[0..|x|] == x;
    AgreeOn(x, 0, |x|, y, j, j + |x|, lo, hi, j + lo, j + hi);
  }

  lemma MatchAtFolds(x: seq<byte>, y: seq<byte>, j: int, caseSensitive: bool)
    ensures MatchAt(x, y, j, caseSensitive) <==> At(FoldAll(x, caseSensitive), FoldAll(y, caseSensitive), j)
  {
    if 0 <= j <= |y| - |x| {
      forall k | 0 <= k < |x|
        ensures CharEqu(x[k], y[j + k], caseSensitive)
           <==> FoldAll(x, caseSensitive)[k] == FoldAll(y, caseSensitive)[j + k]
      {
        CharEquIsFold(x[k], y[j + k], caseSensitive);
      }
    }
  }

  /** Occurrence of a pattern is occurrence of its folding in the folded text. */
  lemma OccursFolds(x: seq<byte>, y: seq<byte>, caseSensitive: bool)
    ensures Occurs(x, y, caseSensitive)
       <==> exists j :: At(FoldAll(x, caseSensitive), FoldAll(y, caseSensitive), j)
  {
    forall j
      ensures MatchAt(x, y, j, caseSensitive)
         <==> At(FoldAll(x, caseSensitive), FoldAll(y, caseSensitive), j)
    {
      MatchAtFolds(x, y, j, caseSensitive);
    }
  }

  /** STR_CMP: one window compared byte by byte. */
  method WindowEqual(x: seq<byte>, y: seq<byte>, j: nat, caseSensitive: bool) returns (r: bool)
    requires j <= |y| - |x|
    ensures r <==> MatchAt(x, y, j, caseSensitive)
  {
    var k := 0;
    while k < |x|
      invariant 0 <= k <= |x|
      invariant forall i :: 0 <= i < k ==> CharEqu(x[i], y[j + i], caseSensitive)
    {
      if !CharEqu(x[k], y[j + k], caseSensitive) {
        return false;
      }
      k := k + 1;
    }
    return true;
  }

  /** The specification matcher: every window is tried in turn. */
  method BruteForce(x: seq<byte>, y: seq<byte>, caseSensitive: bool) returns (r: bool)
    ensures r <==> Occurs(x, y, caseSensitive)
  {
    var i := 0;
    while i <= |y| - |x|
      invariant 0 <= i
      invariant forall j :: 0 <= j < i ==> !MatchAt(x, y, j, caseSensitive)
    {
      var here := WindowEqual(x, y, i, caseSensitive);
      if here {
        return true;
      }
      i := i + 1;
    }
    return false;
  }
}
