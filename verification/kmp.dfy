/** Knuth-Morris-Pratt: preKmp and KMP of filesearch/str_match.c.
    The theory is over folded sequences; the two methods run on bytes. */
module Kmp {
  import opened Chars

  /** The failure table is an array of C `char`, so an entry has eight signed bits. */
  type schar = b: int | -128 <= b < 128

  /** X[..k] is a proper border (both prefix and suffix) of X[..i]. */
  predicate Border(X: seq<int>, i: int, k: int) {
    0 <= k < i <= |X| && X[..k] == X[i - k..i]
  }

  /** A border worth falling back to after a mismatch on X[i]. */
  predicate Useful(X: seq<int>, i: int, k: int) {
    i < |X| && Border(X, i, k) && X[k] != X[i]
  }

  /** r is the strong failure value of i: the longest useful border, or -1 if there is none. */
  ghost predicate StrongNext(X: seq<int>, i: int, r: int) {
    -1 <= r < i && (r >= 0 ==> Useful(X, i, r)) && forall k :: Useful(X, i, k) ==> k <= r
  }

  ghost predicate FailureTable(X: seq<int>, t: seq<int>) {
    |t| <= |X| && forall i :: 0 <= i < |t| ==> StrongNext(X, i, t[i])
  }

  ghost predicate LongestBorder(X: seq<int>, i: int, j: int) {
    if i == 0 then j == -1 else Border(X, i, j) && forall k :: Border(X, i, k) ==> k <= j
  }

  /** j bounds every border of X[..i] that the byte X[i] extends, and is a border itself unless -1. */
  ghost predicate Fallback(X: seq<int>, i: int, j: int) {
    -1 <= j < i < |X| && (j >= 0 ==> Border(X, i, j))
    && forall k :: Border(X, i, k) && X[k] == X[i] ==> k <= j
  }

  /** X[..k] is a suffix of Y[..j]. */
  predicate EndsWith(X: seq<int>, Y: seq<int>, j: int, k: int) {
    0 <= k <= |X| && k <= j <= |Y| && X[..k] == Y[j - k..j]
  }

  /** i is the longest prefix of X, shorter than X, that ends at j. */
  ghost predicate LongestEnd(X: seq<int>, Y: seq<int>, j: int, i: int) {
    i < |X| && EndsWith(X, Y, j, i) && forall k :: k < |X| && EndsWith(X, Y, j, k) ==> k <= i
  }

  /** i bounds every match ending at j that the byte Y[j] extends, and is a match itself unless -1. */
  ghost predicate Candidate(X: seq<int>, Y: seq<int>, j: int, i: int) {
    0 <= j < |Y| && -1 <= i < |X| && (i >= 0 ==> EndsWith(X, Y, j, i))
    && forall k :: k < |X| && EndsWith(X, Y, j, k) && X[k] == Y[j] ==> k <= i
  }

  /** Borders of the same prefix are nested, and nesting composes. */
  lemma BorderChain(X: seq<int>, i: int, j: int, k: int)
    requires Border(X, i, j) && k < j
    ensures Border(X, i, k) <==> Border(X, j, k)
  {
    if 0 <= k {
      assert X[i - k..i] == X[i - j..i][j - k..] == X[..j][j - k..] == X[j - k..j];
    }
  }

  lemma BorderExtend(X: seq<int>, i: int, k: int)
    requires 0 <= k < i < |X|
    ensures Border(X, i + 1, k + 1) <==> Border(X, i, k) && X[k] == X[i]
  {
    assert X[..k + 1] == X[..k] + [X[k]];
    assert X[i - k..i + 1] == X[i - k..i] + [X[i]];
  }

  /** A shorter match is a border of a longer one. */
  lemma EndsWithChain(X: seq<int>, Y: seq<int>, j: int, i: int, k: int)
    requires EndsWith(X, Y, j, i) && k < i
    ensures EndsWith(X, Y, j, k) <==> Border(X, i, k)
  {
    if 0 <= k {
      assert Y[j - k..j] == Y[j - i..j][i - k..] == X[..i][i - k..] == X[i - k..i];
    }
  }

  lemma EndsWithExtend(X: seq<int>, Y: seq<int>, j: int, k: int)
    requires 0 <= k < |X| && 0 <= j < |Y|
    ensures EndsWith(X, Y, j + 1, k + 1) <==> EndsWith(X, Y, j, k) && X[k] == Y[j]
  {
    assert X[..k + 1] == X[..k] + [X[k]];
    if k <= j {
      assert Y[j - k..j + 1] == Y[j - k..j] + [Y[j]];
    }
  }

  lemma EndsWithIsAt(X: seq<int>, Y: seq<int>, j: int)
    ensures EndsWith(X, Y, j, |X|) <==> At(X, Y, j - |X|)
  {
    assert X[..|X|] == X;
  }

  lemma FallbackStarts(X: seq<int>, i: int, j: int)
    requires 0 <= i < |X| && LongestBorder(X, i, j)
    ensures -1 <= j < i && Fallback(X, i, j)
  {
  }

  /** The fallback chain of preKmp never drops a border that the next byte could extend. */
  lemma FallbackStep(X: seq<int>, i: int, j: int, r: int)
    requires Fallback(X, i, j) && j >= 0 && X[j] != X[i] && StrongNext(X, j, r)
    ensures Fallback(X, i, r)
  {
    forall k | Border(X, i, k) && X[k] == X[i]
      ensures k <= r
    {
      BorderChain(X, i, j, k);
      assert Useful(X, j, k);
    }
    BorderChain(X, i, j, r);
  }

  /** When the chain stops, one more byte gives the longest border of the longer prefix. */
  lemma FallbackStops(X: seq<int>, i: int, j: int)
    requires Fallback(X, i, j) && (j >= 0 ==> X[j] == X[i])
    ensures LongestBorder(X, i + 1, j + 1)
  {
    if j >= 0 {
      BorderExtend(X, i, j);
    }
    forall k: int, n: int | n == i + 1 && Border(X, n, k)
      ensures k <= j + 1
    {
      if k > 0 {
        BorderExtend(X, i, k - 1);
      }
    }
  }

  /** From the longest border j of X[..i] the entry that preKmp writes is the strong one. */
  lemma EntryIsStrong(X: seq<int>, i: int, j: int, r: int)
    requires 0 < i < |X| && LongestBorder(X, i, j)
    requires if X[i] == X[j] then StrongNext(X, j, r) else r == j
    ensures StrongNext(X, i, r)
  {
    if X[i] == X[j] {
      forall k | k < j
        ensures Useful(X, i, k) <==> Useful(X, j, k)
      {
        BorderChain(X, i, j, k);
      }
    }
  }

  lemma TableStarts(X: seq<int>)
    requires |X| > 0
    ensures FailureTable(X, [-1]) && LongestBorder(X, 0, -1)
  {
  }

  lemma TableAt(X: seq<int>, t: seq<int>, j: nat)
    requires FailureTable(X, t) && j < |t|
    ensures StrongNext(X, j, t[j]) && -1 <= t[j] < j
  {
  }

  lemma TableExtend(X: seq<int>, t: seq<int>, i: nat, j: int)
    requires FailureTable(X, t) && i == |t| < |X| && LongestBorder(X, i, j)
    requires 0 <= j < |t|
    ensures FailureTable(X, t + [if X[i] == X[j] then t[j] else j])
  {
    EntryIsStrong(X, i, j, if X[i] == X[j] then t[j] else j);
  }

  /** The strong failure values of positions 0 to m fit an entry of the table. */
  ghost predicate FitsChar(X: seq<int>, m: nat) {
    forall i, r :: 0 <= i <= m && StrongNext(X, i, r) ==> r <= 127
  }

  /** So they do in a pattern of at most 128 bytes; */
  lemma ShortFits(X: seq<int>, m: nat)
    requires m <= 128
    ensures FitsChar(X, m)
  {
  }

  /** and a table of such entries can only be right if they do. */
  lemma TableFits(X: seq<int>, t: seq<schar>)
    requires |t| > 0 && FailureTable(X, t)
    ensures FitsChar(X, |t| - 1)
  {
    forall i, r | 0 <= i <= |t| - 1 && StrongNext(X, i, r)
      ensures r <= 127
    {
      assert StrongNext(X, i, t[i]);
    }
  }

  /** Beyond 128 bytes they may not: after 129 equal bytes and another one the value is 128. */
  lemma LongMisfits(X: seq<int>, m: nat)
    requires 129 <= m < |X| && X[129] != X[0] && forall k :: 0 <= k < 129 ==> X[k] == X[0]
    ensures StrongNext(X, 129, 128) && !FitsChar(X, m)
  {
    assert X[..128] == X[1..129];
    assert Useful(X, 129, 128);
  }

  lemma EntryFits(X: seq<int>, m: nat, t: seq<int>, i: nat)
    requires FitsChar(X, m) && FailureTable(X, t) && i < |t| && i <= m
    ensures -128 <= t[i] <= 127
  {
    assert StrongNext(X, i, t[i]);
  }

  /** preKmp, for every pattern whose failure values fit the entries. */
  method PreKmp(x: seq<byte>, m: nat, kmpNext: array<schar>, caseSensitive: bool)
    requires m < |x| && kmpNext.Length == m + 1 && FitsChar(FoldAll(x, caseSensitive), m)
    modifies kmpNext
    ensures FailureTable(FoldAll(x, caseSensitive), kmpNext[..])
  {
    hide *;
    ghost var X := FoldAll(x, caseSensitive);
    ghost var table: seq<int> := [-1];
    TableStarts(X);
    var i, j: int := 0, -1;
    kmpNext[0] := -1;
    while i < m
      invariant 0 <= i <= m && -1 <= j < m && LongestBorder(X, i, j)
      invariant |table| == i + 1 && FailureTable(X, table)
      invariant forall k :: 0 <= k <= i ==> kmpNext[k] == table[k]
    {
      FallbackStarts(X, i, j);
      while j > -1 && !CharEqu(x[i], x[j], caseSensitive)
        invariant -1 <= j < i && Fallback(X, i, j)
        modifies {}
        decreases j
      {
        CharEquIsFold(x[i], x[j], caseSensitive);
        TableAt(X, table, j);
        FallbackStep(X, i, j, table[j]);
        j := kmpNext[j];
      }
      if j >= 0 {
        CharEquIsFold(x[i], x[j], caseSensitive);
      }
      FallbackStops(X, i, j);
      i, j := i + 1, j + 1;
      CharEquIsFold(x[i], x[j], caseSensitive);
      TableExtend(X, table, i, j);
      EntryFits(X, m, table + [if X[i] == X[j] then table[j] else j], i);
      if CharEqu(x[i], x[j], caseSensitive) {
        kmpNext[i] := kmpNext[j];
      } else {
        kmpNext[i] := j;
      }
      table := table + [kmpNext[i]];
    }
    assert kmpNext[..] == table;
  }

  lemma CandidateStarts(X: seq<int>, Y: seq<int>, j: int, i: int)
    requires 0 <= j < |Y| && LongestEnd(X, Y, j, i)
    ensures 0 <= i < |X| && Candidate(X, Y, j, i)
  {
  }

  lemma CandidateStep(X: seq<int>, Y: seq<int>, j: int, i: int, r: int)
    requires Candidate(X, Y, j, i) && i >= 0 && X[i] != Y[j] && StrongNext(X, i, r)
    ensures Candidate(X, Y, j, r)
  {
    forall k | k < |X| && EndsWith(X, Y, j, k) && X[k] == Y[j]
      ensures k <= r
    {
      EndsWithChain(X, Y, j, i, k);
      assert Useful(X, i, k);
    }
    EndsWithChain(X, Y, j, i, r);
  }

  lemma CandidateStops(X: seq<int>, Y: seq<int>, j: int, i: int)
    requires Candidate(X, Y, j, i) && (i >= 0 ==> X[i] == Y[j])
    ensures EndsWith(X, Y, j + 1, i + 1)
    ensures i + 1 < |X| ==> LongestEnd(X, Y, j + 1, i + 1)
    ensures i + 1 < |X| ==> !EndsWith(X, Y, j + 1, |X|)
  {
    if i >= 0 {
      EndsWithExtend(X, Y, j, i);
    }
    forall k: int, e: int | e == j + 1 && EndsWith(X, Y, e, k)
      ensures k <= i + 1
    {
      if k > 0 {
        EndsWithExtend(X, Y, j, k - 1);
      }
    }
  }

  /** A failure table of a pattern with trailing bytes serves the pattern itself. */
  lemma TableOfPrefix(X: seq<int>, m: nat, t: seq<int>)
    requires m < |X| && |t| == m + 1 && FailureTable(X, t)
    ensures FailureTable(X[..m], t[..m])
  {
    var P := X[..m];
    forall i | 0 <= i < m
      ensures StrongNext(P, i, t[i])
    {
      forall k
        ensures Useful(P, i, k) <==> Useful(X, i, k)
      {
        if 0 <= k < i {
          assert P[..k] == X[..k] && P[i - k..i] == X[i - k..i];
        }
      }
    }
  }

  lemma NothingYet(X: seq<int>, Y: seq<int>)
    requires |X| > 0
    ensures LongestEnd(X, Y, 0, 0)
    ensures forall e :: e <= 0 ==> !EndsWith(X, Y, e, |X|)
  {
    assert X[..0] == Y[0..0];
  }

  lemma NothingAtAll(X: seq<int>, Y: seq<int>)
    requires forall e :: e <= |Y| ==> !EndsWith(X, Y, e, |X|)
    ensures forall j :: !At(X, Y, j)
  {
    forall j
      ensures !At(X, Y, j)
    {
      EndsWithIsAt(X, Y, j + |X|);
    }
  }

  /** KMP agrees with the specification matcher; `steps` counts character comparisons
      and shows that the nested fallback loops are linear in the text overall. */
  method Search(x: seq<byte>, m: nat, y: seq<byte>, kmpNext: array<schar>, caseSensitive: bool)
    returns (r: bool, ghost steps: nat)
    requires 1 <= m < |x| && kmpNext.Length == m + 1
    requires FailureTable(FoldAll(x, caseSensitive), kmpNext[..])
    ensures r <==> Occurs(x[..m], y, caseSensitive)
    ensures steps <= 2 * |y|
  {
    hide *;
    ghost var X, Y := FoldAll(x[..m], caseSensitive), FoldAll(y, caseSensitive);
    ghost var table: seq<int> := kmpNext[..][..m];
    FoldAllPrefix(x, m, caseSensitive);
    TableOfPrefix(FoldAll(x, caseSensitive), m, kmpNext[..]);
    NothingYet(X, Y);
    var i, j: int := 0, 0;
    steps := 0;
    while j < |y|
      invariant 0 <= j <= |y| && 0 <= i < m && steps <= 2 * j - i
      invariant LongestEnd(X, Y, j, i)
      invariant forall e :: e <= j ==> !EndsWith(X, Y, e, |X|)
    {
      CandidateStarts(X, Y, j, i);
      while i > -1 && !CharEqu(x[i], y[j], caseSensitive)
        invariant -1 <= i < m && Candidate(X, Y, j, i) && steps <= 2 * j - i
        decreases i
      {
        CharEquIsFold(x[i], y[j], caseSensitive);
        TableAt(X, table, i);
        CandidateStep(X, Y, j, i, table[i]);
        i, steps := kmpNext[i], steps + 1;
      }
      if i >= 0 {
        CharEquIsFold(x[i], y[j], caseSensitive);
      }
      CandidateStops(X, Y, j, i);
      i, j, steps := i + 1, j + 1, steps + 1;
      if i >= m {
        EndsWithIsAt(X, Y, j);
        OccursFolds(x[..m], y, caseSensitive);
        return true, steps;
      }
    }
    NothingAtAll(X, Y);
    OccursFolds(x[..m], y, caseSensitive);
    return false, steps;
  }
}
