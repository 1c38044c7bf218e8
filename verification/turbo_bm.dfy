/** Turbo-BM (TBM of filesearch/str_match.c).

    As written it is not a correct matcher: when the bad-character shift wins, the code
    also insists on a shift of at least u + 1, which can jump over an occurrence. The
    patterns for which that can happen are exactly the `Confusable` ones below. */
module TurboBM {
  import opened Chars
  import opened BoyerMoore

  // ---------- the two shift tables as functions of the pattern ----------

  function LeastShift(X: seq<int>, i: int, s: int): (r: int)
    requires 0 <= i < |X| && 1 <= s <= |X|
    ensures s <= r <= |X|
    decreases |X| - s
  {
    if s == |X| || Compatible(X, i, s) then s else LeastShift(X, i, s + 1)
  }

  /** The good-suffix shift of position i. */
  function Good(X: seq<int>, i: int): (r: int)
    requires 0 <= i < |X|
    ensures 1 <= r <= |X|
  {
    LeastShift(X, i, 1)
  }

  function LastIndex(X: seq<int>, n: nat, c: int): (b: int)
    requires n < |X|
    ensures 1 <= b <= |X|
  {
    if n == 0 then |X| else if X[n - 1] == c then |X| - n else LastIndex(X, n - 1, c)
  }

  /** The bad-character table entry of c. */
  function Bad(X: seq<int>, c: int): (b: int)
    requires 0 < |X|
    ensures 1 <= b <= |X|
  {
    LastIndex(X, |X| - 1, c)
  }

  lemma LeastShiftIsLeast(X: seq<int>, i: int, s: int, r: int)
    requires 0 <= i < |X| && 1 <= s <= r && GoodShift(X, i, r)
    ensures r <= |X| && LeastShift(X, i, s) == r
    decreases r - s
  {
    if s < r {
      LeastShiftIsLeast(X, i, s + 1, r);
    }
  }

  lemma LeastShiftCompatible(X: seq<int>, i: int, s: int)
    requires 0 <= i < |X| && 1 <= s <= |X| && forall t :: Compatible(X, i, t) ==> s <= t
    ensures GoodShift(X, i, LeastShift(X, i, s))
    decreases |X| - s
  {
    FullPeriod(X);
    if s < |X| && !Compatible(X, i, s) {
      LeastShiftCompatible(X, i, s + 1);
    }
  }

  /** Good is the table that preBmGs fills. */
  lemma GoodIsTable(X: seq<int>, i: int)
    requires 0 <= i < |X|
    ensures GoodShift(X, i, Good(X, i))
    ensures forall r :: GoodShift(X, i, r) ==> r == Good(X, i)
  {
    LeastShiftCompatible(X, i, 1);
  }

  lemma LastIndexIsLast(X: seq<int>, n: nat, c: int)
    requires n < |X|
    ensures LastAmong(X, n, c, LastIndex(X, n, c))
  {
  }

  /** Bad is the table that preBmBc fills. */
  lemma BadIsTable(X: seq<int>, c: int)
    requires 0 < |X|
    ensures LastAmong(X, |X| - 1, c, Bad(X, c))
    ensures forall b, n :: n == |X| - 1 && LastAmong(X, n, c, b) ==> b == Bad(X, c)
  {
    LastIndexIsLast(X, |X| - 1, c);
  }

  // ---------- the search loop as a function ----------

  /** The bytes remembered from the previous attempt fit to the left of the shift. */
  predicate Fits(m: int, u: int, shift: int) {
    0 <= u && 1 <= shift && (u > 0 ==> u <= m - shift)
  }

  /** Where the right-to-left comparison stops, jumping over the remembered factor. */
  function Scan(X: seq<int>, Y: seq<int>, j: int, u: int, shift: int, i: int): (r: int)
    requires 0 <= j <= |Y| - |X| && -1 <= i < |X| && Fits(|X|, u, shift)
    ensures -1 <= r <= i
    decreases i
  {
    if i >= 0 && X[i] == Y[i + j] then
      Scan(X, Y, j, u, shift, if u != 0 && i - 1 == |X| - 1 - shift then i - 1 - u else i - 1)
    else i
  }

  /** The memory and shift chosen after a mismatch at i on the byte c. */
  function Next(X: seq<int>, u: int, i: int, c: int): (r: (int, int))
    requires 0 <= i < |X| && 0 <= u
    ensures Fits(|X|, r.0, r.1)
  {
    var m, v, good := |X|, |X| - 1 - i, Good(X, i);
    var turboShift, bcShift := u - v, Bad(X, c) - m + 1 + i;
    var shift := Max(Max(turboShift, bcShift), good);
    if shift == good then (Min(m - shift, v), shift)
    else if turboShift < bcShift then (0, Max(shift, u + 1))
    else (0, shift)
  }

  function Turbo(X: seq<int>, Y: seq<int>, j: int, u: int, shift: int): bool
    requires 0 < |X| && 0 <= j && Fits(|X|, u, shift)
    decreases |Y| - j
  {
    if j > |Y| - |X| then false
    else
      var i := Scan(X, Y, j, u, shift, |X| - 1);
      if i < 0 then true
      else
        var (u', shift') := Next(X, u, i, Y[i + j]);
        Turbo(X, Y, j + shift', u', shift')
  }

  // ---------- the exact failing family ----------

  /** An attempt that mismatches at i0 on the byte d chooses the good-suffix shift, and the text
      it saw is consistent with an occurrence s beyond that shift. */
  predicate FirstAttempt(X: seq<int>, i0: int, d: int, s: int)
    requires 0 <= i0 < |X|
  {
    var m, shift := |X|, Good(X, i0);
    && 1 <= s <= Min(m - shift, m - 1 - i0)
    && (var lo := Max(i0 + 1, shift + s); Agree(X, lo, m, X, lo - shift - s, m - shift - s))
    && d != X[i0] && (shift + s <= i0 ==> d == X[i0 - shift - s])
    && Bad(X, d) - m + 1 + i0 <= shift
  }

  /** The next attempt, on text consistent with that occurrence, mismatches at i with u bytes
      remembered, and there the bad-character shift wins over the other two. */
  predicate SecondAttempt(X: seq<int>, u: int, s: int, i: int)
    requires 0 <= s <= i < |X|
  {
    var m, c := |X|, X[i - s];
    && Agree(X, i + 1, m, X, i + 1 - s, m - s) && X[i] != c
    && Good(X, i) < Bad(X, c) - m + 1 + i
    && u - (m - 1 - i) < Bad(X, c) - m + 1 + i
  }

  /** Both attempts happen in turn. The code then shifts by at least u + 1 > s, over the occurrence. */
  predicate Trap(X: seq<int>, i0: int, d: int, s: int, i: int) {
    && 0 <= i0 < |X| && FirstAttempt(X, i0, d, s)
    && |X| - Good(X, i0) <= i < |X|
    && SecondAttempt(X, Min(|X| - Good(X, i0), |X| - 1 - i0), s, i)
  }

  /** A property of the pattern alone, decidable by bounded search. */
  predicate Confusable(x: seq<byte>, caseSensitive: bool) {
    var X := FoldAll(x, caseSensitive);
    exists i0: int, d: byte, s: int, i: int | 0 <= i0 < |X| && 1 <= s <= |X| && 0 <= i < |X| ::
      Trap(X, i0, Fold(d, caseSensitive), s, i)
  }

  // ---------- what the memory means ----------

  /** The attempt before the one at j stopped at i0 and chose the good-suffix shift. */
  ghost predicate Memory(X: seq<int>, Y: seq<int>, j: int, u: int, shift: int, i0: int) {
    && 0 <= i0 < |X| && shift == Good(X, i0) && u == Min(|X| - shift, |X| - 1 - i0)
    && Matched(X, Y, j - shift, i0) && X[i0] != Y[j - shift + i0]
    && Bad(X, Y[j - shift + i0]) - |X| + 1 + i0 <= shift
  }

  /** The remembered factor lies on the text, and is a suffix of X as well. */
  ghost predicate Remembered(X: seq<int>, Y: seq<int>, j: int, u: int, shift: int) {
    && Fits(|X|, u, shift) && 0 <= j <= |Y| - |X|
    && (u > 0 ==>
          && Agree(X, |X| - shift - u, |X| - shift, Y, j + |X| - shift - u, j + |X| - shift)
          && Agree(X, |X| - u, |X|, X, |X| - shift - u, |X| - shift))
  }

  lemma CompatibleStretch(X: seq<int>, i: int, s: int, lo: int)
    requires Compatible(X, i, s) && i < lo <= |X| && s <= lo
    ensures Agree(X, lo - s, |X| - s, X, lo, |X|)
  {
    hide Agree;
    var m, k := |X|, if s <= i then |X| - 1 - i else |X| - s;
    AgreeOn(X, m - 1 - s + 1 - k, m - 1 - s + 1, X, m - k, m, lo - s, m - s, lo, m);
  }

  lemma MemoryIsRemembered(X: seq<int>, Y: seq<int>, j: int, u: int, shift: int, i0: int)
    requires u > 0 && Memory(X, Y, j, u, shift, i0) && 0 <= j <= |Y| - |X|
    ensures Remembered(X, Y, j, u, shift)
  {
    hide Compatible, Good, GoodShift, Matched, Agree;
    var m := |X|;
    GoodIsTable(X, i0);
    GoodShiftCompatible(X, i0);
    CompatibleStretch(X, i0, shift, m - u);
    MatchedStretch(X, Y, j - shift, i0, m - u, m);
    AgreeFlip(X, m - u - shift, m - shift, X, m - u, m);
    AgreeFlip(X, m - u, m, Y, j - shift + m - u, j - shift + m);
    AgreeBoth(X, m - shift - u, m - shift, X, m - u, m, Y, j + m - shift - u, j + m - shift);
  }

  lemma GoodShiftCompatible(X: seq<int>, i: int)
    requires 0 <= i < |X|
    ensures Compatible(X, i, Good(X, i))
    ensures Good(X, i) <= i ==> X[i - Good(X, i)] != X[i]
  {
    GoodIsTable(X, i);
  }

  // ---------- scanning ----------

  /** i is not inside the stretch that the scan jumps over. */
  predicate Outside(m: int, u: int, shift: int, i: int) {
    u > 0 ==> m - shift <= i || i < m - shift - u
  }

  lemma JumpKeepsMatch(X: seq<int>, Y: seq<int>, j: int, u: int, shift: int)
    requires Remembered(X, Y, j, u, shift) && u > 0 && Matched(X, Y, j, |X| - 1 - shift)
    ensures Matched(X, Y, j, |X| - 1 - shift - u)
  {
    hide Agree;
    var m := |X|;
    AgreeJoin(X, m - shift - u, m - shift, m, Y, j + m - shift - u, j + m - shift, j + m);
  }

  /** The scan stops at a genuine mismatch with everything to its right matched. */
  lemma ScanMatches(X: seq<int>, Y: seq<int>, j: int, u: int, shift: int, i: int)
    requires Remembered(X, Y, j, u, shift) && Matched(X, Y, j, i) && Outside(|X|, u, shift, i)
    ensures var r := Scan(X, Y, j, u, shift, i);
            && Matched(X, Y, j, r) && Outside(|X|, u, shift, r)
            && (r >= 0 ==> X[r] != Y[j + r])
    decreases i
  {
    hide Remembered, Matched;
    MatchedIs(X, Y, j, i);
    RememberedFits(X, Y, j, u, shift);
    if i >= 0 && X[i] == Y[i + j] {
      MatchedExtend(X, Y, j, i);
      if u != 0 && i - 1 == |X| - 1 - shift {
        JumpKeepsMatch(X, Y, j, u, shift);
        ScanMatches(X, Y, j, u, shift, i - 1 - u);
      } else {
        ScanMatches(X, Y, j, u, shift, i - 1);
      }
    }
  }

  lemma RememberedFits(X: seq<int>, Y: seq<int>, j: int, u: int, shift: int)
    requires Remembered(X, Y, j, u, shift)
    ensures Fits(|X|, u, shift)
  {
  }

  // ---------- which occurrences the shift can jump over ----------

  /** The turbo shift is safe. */
  lemma TurboShiftSafe(X: seq<int>, Y: seq<int>, j: int, u: int, shift: int, i: int, s: int)
    requires u > 0 && Remembered(X, Y, j, u, shift) && Matched(X, Y, j, i) && i >= 0 && X[i] != Y[j + i]
    requires 1 <= s < u - (|X| - 1 - i)
    ensures !At(X, Y, j + s)
  {
    if At(X, Y, j + s) {
      hide At, Matched, Agree, Remembered;
      MatchedIs(X, Y, j, i);
      RememberedFits(X, Y, j, u, shift);
      var m := |X|;
      RememberedPair(X, Y, j, u, shift, i);
      RememberedPair(X, Y, j, u, shift, i - s);
      AtStretch(X, Y, j + s, i - s, i - s);
      AtStretch(X, Y, j + s, i - s - shift, i - s - shift);
    }
  }

  lemma RememberedPair(X: seq<int>, Y: seq<int>, j: int, u: int, shift: int, q: int)
    requires u > 0 && Remembered(X, Y, j, u, shift) && |X| - u <= q < |X|
    ensures 0 <= q - shift && X[q] == X[q - shift] == Y[j + q - shift]
  {
    hide Agree;
    var m := |X|;
    AgreeOn(X, m - shift - u, m - shift, Y, j + m - shift - u, j + m - shift,
            q - shift, m - shift, j + q - shift, j + m - shift);
    AgreeOn(X, m - u, m, X, m - shift - u, m - shift, q, m, q - shift, m - shift);
  }

  /** When the scan went past the remembered factor, no shift up to u can reach an occurrence. */
  lemma NoneWithinMemory(X: seq<int>, Y: seq<int>, j: int, u: int, shift: int, i0: int, i: int, s: int)
    requires u > 0 && Memory(X, Y, j, u, shift, i0) && Remembered(X, Y, j, u, shift)
    requires Matched(X, Y, j, i) && 0 <= i < |X| - shift - u && 1 <= s <= u
    ensures !At(X, Y, j + s)
  {
    if At(X, Y, j + s) {
      hide *;
      var m := |X|;
      MemoryIs(X, Y, j, u, shift, i0);
      MatchedIs(X, Y, j, i);
      RememberedPair(X, Y, j, u, shift, i0 + s);
      MatchedStretch(X, Y, j, i, i0 + s, m);
      MatchedStretch(X, Y, j, i, i0 + s - shift, m);
      AtStretch(X, Y, j + s, i0, i0);
      AtStretch(X, Y, j + s, i0 - shift, i0 - shift);
    }
  }

  lemma MemoryIs(X: seq<int>, Y: seq<int>, j: int, u: int, shift: int, i0: int)
    requires Memory(X, Y, j, u, shift, i0)
    ensures 0 <= i0 < |X| && 1 <= shift <= |X| && (shift <= i0 ==> X[i0 - shift] != X[i0])
    ensures u <= |X| - shift && u <= |X| - 1 - i0 && (u == |X| - shift || u == |X| - 1 - i0)
    ensures 0 <= j - shift <= |Y| - |X| && X[i0] != Y[j - shift + i0]
  {
    hide Agree, Good;
    GoodShiftCompatible(X, i0);
  }

  lemma JumpedFirst(X: seq<int>, Y: seq<int>, j: int, u: int, shift: int, i0: int, s: int)
    requires u > 0 && Memory(X, Y, j, u, shift, i0) && 1 <= s <= u && At(X, Y, j + s)
    ensures FirstAttempt(X, i0, Y[j - shift + i0], s)
  {
    hide Good, Bad, At, Agree;
    var m, lo := |X|, Max(i0 + 1, shift + s);
    MatchedStretch(X, Y, j - shift, i0, lo, m);
    AtStretch(X, Y, j + s, lo - shift - s, m - shift - s);
    AgreeBoth(X, lo, m, Y, j - shift + lo, j - shift + m, X, lo - shift - s, m - shift - s);
    if shift + s <= i0 {
      AtStretch(X, Y, j + s, i0 - shift - s, i0 - shift - s);
    }
  }

  lemma JumpedSecond(X: seq<int>, Y: seq<int>, j: int, u: int, i: int, s: int)
    requires Matched(X, Y, j, i) && 1 <= s <= i && X[i] != Y[j + i] && At(X, Y, j + s)
    requires Good(X, i) < Bad(X, Y[j + i]) - |X| + 1 + i
    requires u - (|X| - 1 - i) < Bad(X, Y[j + i]) - |X| + 1 + i
    ensures SecondAttempt(X, u, s, i)
  {
    hide Good, Bad, At, Agree;
    MatchedStretch(X, Y, j, i, i + 1, |X|);
    AtStretch(X, Y, j + s, i + 1 - s, |X| - s);
    AgreeBoth(X, i + 1, |X|, Y, j + i + 1, j + |X|, X, i + 1 - s, |X| - s);
    AtStretch(X, Y, j + s, i - s, i - s);
  }

  /** An occurrence that the extended bad-character shift jumps over springs the trap. */
  lemma JumpedIsTrap(X: seq<int>, Y: seq<int>, j: int, u: int, shift: int, i0: int, i: int, s: int)
    requires u > 0 && Memory(X, Y, j, u, shift, i0)
    requires Matched(X, Y, j, i) && |X| - shift <= i && X[i] != Y[j + i]
    requires 1 <= s <= u && At(X, Y, j + s)
    requires Good(X, i) < Bad(X, Y[j + i]) - |X| + 1 + i
    requires u - (|X| - 1 - i) < Bad(X, Y[j + i]) - |X| + 1 + i
    ensures Trap(X, i0, Y[j - shift + i0], s, i)
  {
    hide Good, Bad, Matched, At, FirstAttempt, SecondAttempt;
    MatchedIs(X, Y, j, i);
    JumpedFirst(X, Y, j, u, shift, i0, s);
    JumpedSecond(X, Y, j, u, i, s);
  }

  // ---------- a pattern that is not confusable is searched correctly ----------

  ghost predicate TrapFree(X: seq<int>, Y: seq<int>) {
    forall i0, p, s, i :: 0 <= p < |Y| ==> !Trap(X, i0, Y[p], s, i)
  }

  lemma NextIsSafe(X: seq<int>, Y: seq<int>, j: int, u: int, shift: int, i0: int, i: int)
    requires TrapFree(X, Y) && Remembered(X, Y, j, u, shift) && Outside(|X|, u, shift, i) && 0 <= u
    requires u > 0 ==> Memory(X, Y, j, u, shift, i0)
    requires Matched(X, Y, j, i) && i >= 0 && X[i] != Y[i + j] && NoneBefore(X, Y, j)
    ensures NoneBefore(X, Y, j + Next(X, u, i, Y[i + j]).1)
  {
    hide At, Matched, Remembered, Memory, Good, Bad, LastAmong, GoodShift, Trap;
    MatchedIs(X, Y, j, i);
    var m, v, good, bad := |X|, |X| - 1 - i, Good(X, i), Bad(X, Y[i + j]);
    GoodIsTable(X, i);
    BadIsTable(X, Y[i + j]);
    var turboShift, bcShift, next := u - v, bad - m + 1 + i, Next(X, u, i, Y[i + j]).1;
    Advance(X, Y, j, i, good, bad, Max(good, bcShift));
    forall e | j + Max(good, bcShift) <= e < j + next
      ensures !At(X, Y, e)
    {
      if e - j < turboShift {
        TurboShiftSafe(X, Y, j, u, shift, i, e - j);
      } else if At(X, Y, e) {
        if i < m - shift - u {
          NoneWithinMemory(X, Y, j, u, shift, i0, i, e - j);
        } else {
          JumpedIsTrap(X, Y, j, u, shift, i0, i, e - j);
          MemoryInText(X, Y, j, u, shift, i0);
        }
      }
    }
  }

  lemma MemoryInText(X: seq<int>, Y: seq<int>, j: int, u: int, shift: int, i0: int)
    requires Memory(X, Y, j, u, shift, i0)
    ensures 0 <= j - shift + i0 < |Y|
  {
  }

  lemma NextRemembers(X: seq<int>, Y: seq<int>, j: int, u: int, i: int)
    requires Matched(X, Y, j, i) && i >= 0 && X[i] != Y[i + j] && 0 <= u
    ensures var (u', shift') := Next(X, u, i, Y[i + j]);
            && (u' > 0 ==> Memory(X, Y, j + shift', u', shift', i))
            && (j + shift' <= |Y| - |X| ==> Remembered(X, Y, j + shift', u', shift'))
  {
    hide Remembered, Good, Bad, Matched;
    MatchedIs(X, Y, j, i);
    var (u', shift') := Next(X, u, i, Y[i + j]);
    if j + shift' <= |Y| - |X| {
      if u' > 0 {
        MemoryIsRemembered(X, Y, j + shift', u', shift', i);
      } else {
        ForgottenIsRemembered(X, Y, j + shift', shift');
      }
    }
  }

  lemma ForgottenIsRemembered(X: seq<int>, Y: seq<int>, j: int, shift: int)
    requires 0 <= j <= |Y| - |X| && 1 <= shift
    ensures Remembered(X, Y, j, 0, shift)
  {
  }

  lemma {:induction false} TurboFinds(X: seq<int>, Y: seq<int>, j: int, u: int, shift: int, i0: int)
    requires 0 < |X| && 0 <= j && TrapFree(X, Y) && NoneBefore(X, Y, j) && Fits(|X|, u, shift)
    requires u > 0 ==> Memory(X, Y, j, u, shift, i0)
    requires j <= |Y| - |X| ==> Remembered(X, Y, j, u, shift)
    ensures Turbo(X, Y, j, u, shift) <==> exists e :: At(X, Y, e)
    decreases |Y| - j
  {
    hide TrapFree, NoneBefore, Memory, Remembered, Matched, At, Next;
    if j > |Y| - |X| {
      NoneLeft(X, Y, j);
    } else {
      MatchedStarts(X, Y, j);
      ScanMatches(X, Y, j, u, shift, |X| - 1);
      var i := Scan(X, Y, j, u, shift, |X| - 1);
      if i < 0 {
        MatchedAll(X, Y, j);
      } else {
        var (u', shift') := Next(X, u, i, Y[i + j]);
        NextIsSafe(X, Y, j, u, shift, i0, i);
        NextRemembers(X, Y, j, u, i);
        TurboFinds(X, Y, j + shift', u', shift', i);
      }
    }
  }

  // ---------- what the code answers ----------

  /** What one run of the search loop answers. */
  predicate Answer(x: seq<byte>, y: seq<byte>, caseSensitive: bool)
    requires 0 < |x|
  {
    Turbo(FoldAll(x, caseSensitive), FoldAll(y, caseSensitive), 0, 0, |x|)
  }

  lemma NotConfusableFinds(x: seq<byte>, y: seq<byte>, caseSensitive: bool)
    requires 0 < |x| && !Confusable(x, caseSensitive)
    ensures Answer(x, y, caseSensitive) <==> Occurs(x, y, caseSensitive)
  {
    hide Trap, Turbo, Occurs, Remembered, At;
    var X, Y := FoldAll(x, caseSensitive), FoldAll(y, caseSensitive);
    forall i0, p, s, i | 0 <= p < |Y|
      ensures !Trap(X, i0, Y[p], s, i)
    {
      TrapBounds(X, i0, Y[p], s, i);
    }
    NoneYet(X, Y);
    if 0 <= |Y| - |X| {
      ForgottenIsRemembered(X, Y, 0, |X|);
    }
    TurboFinds(X, Y, 0, 0, |X|, 0);
    OccursFolds(x, y, caseSensitive);
  }

  lemma TrapBounds(X: seq<int>, i0: int, d: int, s: int, i: int)
    ensures Trap(X, i0, d, s, i) ==> 0 <= i0 < |X| && 1 <= s <= |X| && 0 <= i < |X|
  {
  }

  // ---------- the method ----------

  lemma TablesAreValues(X: seq<int>, gs: seq<int>, bc: seq<int>, i: int, c: byte, caseSensitive: bool)
    requires GoodShifts(X, gs) && BadShifts(X, |X| - 1, bc, caseSensitive) && 0 <= i < |X|
    ensures gs[i] == Good(X, i) && bc[c] == Bad(X, Fold(c, caseSensitive))
  {
    GoodIsTable(X, i);
    BadIsTable(X, Fold(c, caseSensitive));
  }

  lemma TurboUnfolds(X: seq<int>, Y: seq<int>, j: int, u: int, shift: int)
    requires 0 < |X| && 0 <= j && Fits(|X|, u, shift)
    ensures j > |Y| - |X| ==> !Turbo(X, Y, j, u, shift)
    ensures j <= |Y| - |X| ==> var i := Scan(X, Y, j, u, shift, |X| - 1);
              Turbo(X, Y, j, u, shift) ==
              (i < 0 || var (u', shift') := Next(X, u, i, Y[i + j]); Turbo(X, Y, j + shift', u', shift'))
  {
    hide Scan, Next;
  }

  lemma ScanUnfolds(X: seq<int>, Y: seq<int>, j: int, u: int, shift: int, i: int)
    requires 0 <= j <= |Y| - |X| && 0 <= i < |X| && Fits(|X|, u, shift) && X[i] == Y[i + j]
    ensures var i' := if u != 0 && i - 1 == |X| - 1 - shift then i - 1 - u else i - 1;
            -1 <= i' && Scan(X, Y, j, u, shift, i) == Scan(X, Y, j, u, shift, i')
  {
  }

  lemma ScanEnds(X: seq<int>, Y: seq<int>, j: int, u: int, shift: int, i: int)
    requires 0 <= j <= |Y| - |X| && -1 <= i < |X| && Fits(|X|, u, shift) && (i >= 0 ==> X[i] != Y[i + j])
    ensures Scan(X, Y, j, u, shift, i) == i
  {
  }

  /** TBM computes Answer; so it is right whenever the pattern is not confusable. */
  method TBM(x: seq<byte>, y: seq<byte>, bmGs: array<int>, bmBc: array<int>, caseSensitive: bool) returns (r: bool)
    requires 1 <= |x| <= XSIZE && bmGs.Length == XSIZE && bmBc.Length == 256
    requires GoodShifts(FoldAll(x, caseSensitive), bmGs[..|x|])
    requires BadShifts(FoldAll(x, caseSensitive), |x| - 1, bmBc[..], caseSensitive)
    ensures r <==> Answer(x, y, caseSensitive)
    ensures !Confusable(x, caseSensitive) ==> (r <==> Occurs(x, y, caseSensitive))
  {
    hide GoodShifts, BadShifts, Good, Bad, CharEqu, Fold, Scan, Next, Turbo, Confusable, Occurs;
    ghost var X, Y := FoldAll(x, caseSensitive), FoldAll(y, caseSensitive);
    if !Confusable(x, caseSensitive) {
      NotConfusableFinds(x, y, caseSensitive);
    }
    var m := |x|;
    var j, u, shift := 0, 0, m;
    while j <= |y| - m
      invariant 0 <= j && Fits(m, u, shift)
      invariant Turbo(X, Y, 0, 0, m) == Turbo(X, Y, j, u, shift)
      decreases |y| - j
    {
      TurboUnfolds(X, Y, j, u, shift);
      var i := m - 1;
      while i >= 0 && CharEqu(x[i], y[i + j], caseSensitive)
        invariant -1 <= i < m && Scan(X, Y, j, u, shift, m - 1) == Scan(X, Y, j, u, shift, i)
      {
        CharEquIsFold(x[i], y[i + j], caseSensitive);
        ScanUnfolds(X, Y, j, u, shift, i);
        i := i - 1;
        if u != 0 && i == m - 1 - shift {
          i := i - u;
        }
      }
      if i >= 0 {
        CharEquIsFold(x[i], y[i + j], caseSensitive);
      }
      ScanEnds(X, Y, j, u, shift, i);
      if i < 0 {
        return true;
      }
      TablesAreValues(X, bmGs[..m], bmBc[..], i, y[i + j], caseSensitive);
      ghost var next := Next(X, u, i, Y[i + j]);
      NextIs(X, u, i, Y[i + j]);
      var v := m - 1 - i;
      var turboShift := u - v;
      var bcShift := bmBc[y[i + j]] - m + 1 + i;
      shift := Max(turboShift, bcShift);
      shift := Max(shift, bmGs[i]);
      if shift == bmGs[i] {
        u := Min(m - shift, v);
      } else {
        if turboShift < bcShift {
          shift := Max(shift, u + 1);
        }
        u := 0;
      }
      assert (u, shift) == next;
      j := j + shift;
    }
    TurboUnfolds(X, Y, j, u, shift);
    return false;
  }

  lemma NextIs(X: seq<int>, u: int, i: int, c: int)
    requires 0 <= i < |X| && 0 <= u
    ensures 1 <= Good(X, i) <= |X|
    ensures var v, bcShift := |X| - 1 - i, Bad(X, c) - |X| + 1 + i;
            var shift := Max(Max(u - v, bcShift), Good(X, i));
            Next(X, u, i, c) ==
            (if shift == Good(X, i) then (Min(|X| - shift, v), shift)
             else if u - v < bcShift then (0, Max(shift, u + 1)) else (0, shift))
  {
  }
}
