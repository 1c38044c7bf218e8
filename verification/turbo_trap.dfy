/** Where Turbo-BM goes wrong: for every confusable pattern a text on which it misses an occurrence, the
    exact statement about the code, and a concrete input. */
module TurboTrap {
  import opened Chars
  import opened BoyerMoore
  import opened TurboBM

  // ---------- a confusable pattern misses an occurrence in some text ----------

  /** The text that springs a trap: what the first attempt must see, then the occurrence. */
  function Bait(x: seq<int>, i0: int, d: int, n: nat): (y: seq<int>)
    ensures |y| == n + |x|
  {
    seq(n, p requires 0 <= p < n => if i0 < p < |x| then x[p] else d) + x
  }

  lemma BaitIs(x: seq<int>, i0: int, d: int, n: nat)
    ensures Bait(x, i0, d, n)[n..n + |x|] == x
    ensures forall p :: 0 <= p < n ==> Bait(x, i0, d, n)[p] == if i0 < p < |x| then x[p] else d
  {
  }

  lemma BaitHead(X: seq<int>, i0: int, d: int, n: nat, a: int, b: int)
    requires 0 <= i0 < a <= b <= |X| && b <= n
    ensures Agree(X, a, b, Bait(X, i0, d, n), a, b)
    ensures Bait(X, i0, d, n)[i0] == d
  {
    BaitIs(X, i0, d, n);
  }

  lemma BaitTail(X: seq<int>, i0: int, d: int, n: nat, a: int, b: int)
    requires n <= a <= b <= n + |X|
    ensures Agree(Bait(X, i0, d, n), a, b, X, a - n, b - n)
    ensures a < b ==> Bait(X, i0, d, n)[a] == X[a - n]
  {
    BaitIs(X, i0, d, n);
    SliceOfSlice(Bait(X, i0, d, n), n, n + |X|, a, b);
    if a < b {
      BaitAt(X, i0, d, n, a);
    }
  }

  lemma BaitAt(X: seq<int>, i0: int, d: int, n: nat, a: int)
    requires n <= a < n + |X|
    ensures Bait(X, i0, d, n)[a] == X[a - n]
  {
    BaitIs(X, i0, d, n);
    assert Bait(X, i0, d, n)[n..n + |X|][a - n] == Bait(X, i0, d, n)[a];
  }

  lemma ScanStopsAt(X: seq<int>, Y: seq<int>, j: int, u: int, shift: int, stop: int, i: int)
    requires Matched(X, Y, j, stop) && 0 <= stop <= i < |X| && X[stop] != Y[stop + j]
    requires Fits(|X|, u, shift) && (u > 0 ==> |X| - shift <= stop)
    ensures Scan(X, Y, j, u, shift, i) == stop
    decreases i
  {
    if stop < i {
      hide Agree;
      MatchedStretch(X, Y, j, stop, i, |X|);
      ScanStopsAt(X, Y, j, u, shift, stop, i - 1);
    }
  }

  lemma BaitFirstWindow(X: seq<int>, i0: int, d: int, s: int)
    requires 0 <= i0 < |X| && FirstAttempt(X, i0, d, s)
    ensures 0 <= Good(X, i0) + s
    ensures var Y := Bait(X, i0, d, Good(X, i0) + s); Matched(X, Y, 0, i0) && Y[i0] == d
  {
    hide Good, Bad, Bait, Agree;
    var m, n := |X|, Good(X, i0) + s;
    var Y, lo := Bait(X, i0, d, n), Max(i0 + 1, n);
    BaitTail(X, i0, d, n, lo, m);
    AgreeBoth(X, lo, m, X, lo - n, m - n, Y, lo, m);
    if i0 < n {
      BaitHead(X, i0, d, n, i0 + 1, lo);
      AgreeJoin(X, i0 + 1, lo, m, Y, i0 + 1, lo, m);
    } else {
      BaitTail(X, i0, d, n, i0, m);
    }
  }

  lemma BaitSecondWindow(X: seq<int>, i0: int, d: int, j: int, u: int, s: int, i: int)
    requires 0 <= j && 0 <= s <= i < |X| && SecondAttempt(X, u, s, i)
    ensures var Y := Bait(X, i0, d, j + s); Matched(X, Y, j, i) && Y[i + j] == X[i - s]
  {
    hide *;
    var Y := Bait(X, i0, d, j + s);
    SecondAttemptAgrees(X, u, s, i);
    BaitTail(X, i0, d, j + s, j + i + 1, j + |X|);
    BaitAt(X, i0, d, j + s, j + i);
    AgreeBoth(X, i + 1, |X|, X, i + 1 - s, |X| - s, Y, j + i + 1, j + |X|);
    AgreeMatches(X, Y, j, i);
  }

  lemma SecondAttemptAgrees(X: seq<int>, u: int, s: int, i: int)
    requires 0 <= s <= i < |X| && SecondAttempt(X, u, s, i)
    ensures Agree(X, i + 1, |X|, X, i + 1 - s, |X| - s)
  {
    hide Good, Bad, Agree;
  }

  lemma AgreeMatches(X: seq<int>, Y: seq<int>, j: int, i: int)
    requires 0 <= j <= |Y| - |X| && -1 <= i < |X| && Agree(X, i + 1, |X|, Y, j + i + 1, j + |X|)
    ensures Matched(X, Y, j, i)
  {
  }

  lemma FirstAttemptChooses(X: seq<int>, i0: int, d: int, s: int)
    requires 0 <= i0 < |X| && FirstAttempt(X, i0, d, s)
    ensures Next(X, 0, i0, d) == (Min(|X| - Good(X, i0), |X| - 1 - i0), Good(X, i0))
    ensures X[i0] != d && 1 <= s <= Min(|X| - Good(X, i0), |X| - 1 - i0)
  {
    hide Good, Bad, Agree;
  }

  lemma SecondAttemptChooses(X: seq<int>, u: int, s: int, i: int)
    requires 1 <= s <= u && s <= i < |X| && SecondAttempt(X, u, s, i)
    ensures X[i] != X[i - s] && Next(X, u, i, X[i - s]).1 > s
  {
    hide Good, Bad, Agree;
  }

  lemma TurboStep(X: seq<int>, Y: seq<int>, j: int, u: int, shift: int, i: int, u': int, shift': int)
    requires 0 < |X| && 0 <= j <= |Y| - |X| && Fits(|X|, u, shift) && 0 <= i < |X|
    requires Scan(X, Y, j, u, shift, |X| - 1) == i && Next(X, u, i, Y[i + j]) == (u', shift')
    ensures Fits(|X|, u', shift') && Turbo(X, Y, j, u, shift) == Turbo(X, Y, j + shift', u', shift')
  {
    hide Next, Scan;
  }

  lemma TwoAttempts(X: seq<int>, i0: int, d: int, j: int, u: int, s: int, i: int)
    requires 0 <= i0 < |X| && FirstAttempt(X, i0, d, s) && j == Good(X, i0)
    requires u == Min(|X| - j, |X| - 1 - i0) && |X| - j <= i < |X| && 1 <= s <= u
    requires SecondAttempt(X, u, s, i)
    ensures 0 <= j && At(X, Bait(X, i0, d, j + s), j + s) && !Turbo(X, Bait(X, i0, d, j + s), 0, 0, |X|)
  {
    hide Good, Bad, Scan, Next, Turbo, FirstAttempt, SecondAttempt, Matched, Bait, At, Agree;
    var Y := Bait(X, i0, d, j + s);
    FirstAttemptChooses(X, i0, d, s);
    BaitFirstWindow(X, i0, d, s);
    ScanStopsAt(X, Y, 0, 0, |X|, i0, |X| - 1);
    TurboStep(X, Y, 0, 0, |X|, i0, u, j);
    SecondAttemptChooses(X, u, s, i);
    BaitSecondWindow(X, i0, d, j, u, s, i);
    ScanStopsAt(X, Y, j, u, j, i, |X| - 1);
    var (u', shift') := Next(X, u, i, X[i - s]);
    TurboStep(X, Y, j, u, j, i, u', shift');
    TurboExhausted(X, Y, j + shift', u', shift');
    BaitHolds(X, i0, d, j + s);
  }

  /** Turbo-BM walks past the occurrence and gives up. */
  lemma TrapMisses(X: seq<int>, i0: int, d: int, s: int, i: int)
    requires Trap(X, i0, d, s, i)
    ensures 0 <= i0 < |X| && 1 <= s
    ensures var Y := Bait(X, i0, d, Good(X, i0) + s);
            At(X, Y, Good(X, i0) + s) && !Turbo(X, Y, 0, 0, |X|)
  {
    hide *;
    TrapIs(X, i0, d, s, i);
    TwoAttempts(X, i0, d, Good(X, i0), Min(|X| - Good(X, i0), |X| - 1 - i0), s, i);
  }

  lemma TrapIs(X: seq<int>, i0: int, d: int, s: int, i: int)
    requires Trap(X, i0, d, s, i)
    ensures 0 <= i0 < |X| && FirstAttempt(X, i0, d, s) && |X| - Good(X, i0) <= i < |X| && 1 <= Good(X, i0)
    ensures 1 <= s <= Min(|X| - Good(X, i0), |X| - 1 - i0)
    ensures s <= i && SecondAttempt(X, Min(|X| - Good(X, i0), |X| - 1 - i0), s, i)
  {
    hide Bad, Good, FirstAttempt, SecondAttempt;
    FirstAttemptChooses(X, i0, d, s);
  }

  lemma BaitHolds(X: seq<int>, i0: int, d: int, n: nat)
    ensures At(X, Bait(X, i0, d, n), n)
  {
    BaitIs(X, i0, d, n);
  }

  lemma TurboExhausted(X: seq<int>, Y: seq<int>, j: int, u: int, shift: int)
    requires 0 < |X| && 0 <= j && Fits(|X|, u, shift) && j > |Y| - |X|
    ensures !Turbo(X, Y, j, u, shift)
  {
  }

  lemma ConfusableMisses(x: seq<byte>, caseSensitive: bool) returns (y: seq<byte>)
    requires 0 < |x| && Confusable(x, caseSensitive)
    ensures Occurs(x, y, caseSensitive) && !Answer(x, y, caseSensitive)
  {
    hide Trap, Turbo, Good, Bait, At, Fold, Occurs;
    var X := FoldAll(x, caseSensitive);
    var i0: int, d: byte, s: int, i: int :| Trap(X, i0, Fold(d, caseSensitive), s, i);
    TrapMisses(X, i0, Fold(d, caseSensitive), s, i);
    y := BaitFolds(x, i0, d, Good(X, i0) + s, caseSensitive);
    OccursFolds(x, y, caseSensitive);
  }

  lemma BaitFolds(x: seq<byte>, i0: int, d: byte, n: nat, caseSensitive: bool) returns (y: seq<byte>)
    ensures FoldAll(y, caseSensitive) == Bait(FoldAll(x, caseSensitive), i0, Fold(d, caseSensitive), n)
  {
    hide Fold;
    y := seq(n, p requires 0 <= p < n => if i0 < p < |x| then x[p] else d) + x;
    var Y, Z := FoldAll(y, caseSensitive), Bait(FoldAll(x, caseSensitive), i0, Fold(d, caseSensitive), n);
    BaitIs(FoldAll(x, caseSensitive), i0, Fold(d, caseSensitive), n);
    forall p | 0 <= p < n + |x|
      ensures Y[p] == Z[p]
    {
      if n <= p {
        BaitAt(FoldAll(x, caseSensitive), i0, Fold(d, caseSensitive), n, p);
        assert y[p] == x[p - n];
      } else {
        assert y[p] == if i0 < p < |x| then x[p] else d;
      }
    }
  }

  /** Turbo-BM as written is a correct matcher for a pattern, over all texts, exactly when the
      pattern is not confusable. */
  lemma TurboExact(x: seq<byte>, caseSensitive: bool)
    requires 0 < |x|
    ensures (forall y: seq<byte> :: Answer(x, y, caseSensitive) <==> Occurs(x, y, caseSensitive))
       <==> !Confusable(x, caseSensitive)
  {
    hide Answer, Occurs, Confusable;
    if Confusable(x, caseSensitive) {
      var y := ConfusableMisses(x, caseSensitive);
    } else {
      forall y: seq<byte>
        ensures Answer(x, y, caseSensitive) <==> Occurs(x, y, caseSensitive)
      {
        NotConfusableFinds(x, y, caseSensitive);
      }
    }
  }

  // ---------- a concrete failing input ----------

  const FOOLED: seq<byte> := [97, 98, 97, 99, 97, 97, 98, 97]  // "abacaaba"
  const MISSED: seq<byte> := [98, 98, 97, 99, 97, 97, 98, 97] + FOOLED  // "bbacaaba" then the pattern

  lemma GoodIs(X: seq<int>, i: int, r: int)
    requires GoodShift(X, i, r)
    ensures Good(X, i) == r
  {
    GoodIsTable(X, i);
  }

  lemma BadIs(X: seq<int>, c: int, b: int)
    requires 0 < |X| && LastAmong(X, |X| - 1, c, b)
    ensures Bad(X, c) == b
  {
    BadIsTable(X, c);
  }

  lemma NoPeriod(X: seq<int>, s: int, q: int)
    requires 1 <= s && 0 <= q < |X| - s && X[q] != X[q + s]
    ensures !Period(X, s)
  {
    if Period(X, s) {
      SuffixMatchAt(X, |X| - 1 - s, |X| - s, |X| - 1 - s - q);
    }
  }

  lemma FooledAt0()
    ensures Good(FOOLED, 0) == 5
  {
    NoPeriod(FOOLED, 1, 0);
    NoPeriod(FOOLED, 2, 1);
    NoPeriod(FOOLED, 3, 0);
    NoPeriod(FOOLED, 4, 1);
    SuffixEmpty(FOOLED, 2);
    SuffixExtend(FOOLED, 2, 0);
    SuffixExtend(FOOLED, 2, 1);
    SuffixExtend(FOOLED, 2, 2);
    assert Period(FOOLED, 5);
    GoodIs(FOOLED, 0, 5);
  }

  lemma FooledAt6()
    ensures Good(FOOLED, 6) == 2
  {
    if Compatible(FOOLED, 6, 1) {
      SuffixMatchAt(FOOLED, 6, 1, 0);
    }
    SuffixEmpty(FOOLED, 5);
    SuffixExtend(FOOLED, 5, 0);
    assert Compatible(FOOLED, 6, 2);
    GoodIs(FOOLED, 6, 2);
  }

  lemma FooledIsTrapped()
    ensures Trap(FOOLED, 0, 98, 3, 6)
  {
    hide Good, Bad;
    FooledAt0();
    FooledAt6();
    BadIs(FOOLED, 98, 1);
    BadIs(FOOLED, 99, 4);
    FooledAgrees();
    hide Agree;
    assert FirstAttempt(FOOLED, 0, 98, 3);
    assert SecondAttempt(FOOLED, 3, 3, 6);
  }

  lemma FooledAgrees()
    ensures Agree(FOOLED, 8, 8, FOOLED, 0, 0) && Agree(FOOLED, 7, 8, FOOLED, 4, 5)
  {
    assert FOOLED[7] == FOOLED[4];
    assert FOOLED[7..8] == FOOLED[4..5];
  }

  lemma MissedIsBait()
    ensures MISSED == Bait(FOOLED, 0, 98, 8)
  {
    var y: seq<int> := Bait(FOOLED, 0, 98, 8);
    BaitIs(FOOLED, 0, 98, 8);
    forall p | 0 <= p < 16
      ensures MISSED[p] == y[p]
    {
      if 8 <= p {
        assert y[8..16][p - 8] == y[p];
      }
    }
  }

  lemma FoldAllSensitive(s: seq<byte>)
    ensures FoldAll(s, true) == s
  {
  }

  /** TBM answers 0 although the pattern lies on the text at offset 8. */
  lemma FooledMissesIt()
    ensures MatchAt(FOOLED, MISSED, 8, true) && !Answer(FOOLED, MISSED, true)
  {
    hide Good, Bad, Turbo, Bait, Trap, FOOLED, MISSED, CharEqu;
    FooledIsTrapped();
    FooledAt0();
    TrapMisses(FOOLED, 0, 98, 3, 6);
    MissedIsBait();
    FoldAllSensitive(FOOLED);
    FoldAllSensitive(MISSED);
    MatchAtFolds(FOOLED, MISSED, 8, true);
  }
}
