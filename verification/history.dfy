/** The history ring with pins of filesearch/history.c: MAX slots written in turn, and up to VIEW
    pinned positions of the view, which keep showing the slot they showed when they were pinned. */
module History {

  // ---------- sequences of slots ----------

  /** s without the elements of P, in the same order. */
  function Without(s: seq<int>, P: set<int>): seq<int> {
    if s == [] then []
    else Without(s[..|s| - 1], P) + if s[|s| - 1] in P then [] else [s[|s| - 1]]
  }

  predicate Distinct(s: seq<int>) {
    forall i, j :: 0 <= i < j < |s| ==> s[i] != s[j]
  }

  lemma {:induction false} WithoutConcat(a: seq<int>, b: seq<int>, P: set<int>)
    ensures Without(a + b, P) == Without(a, P) + Without(b, P)
  {
    if b == [] {
      assert a + b == a;
    } else {
      assert (a + b)[..|a + b| - 1] == a + b[..|b| - 1];
      WithoutConcat(a, b[..|b| - 1], P);
    }
  }

  lemma {:induction false} WithoutMembers(s: seq<int>, P: set<int>, x: int)
    ensures x in Without(s, P) <==> x in s && x !in P
  {
    if s != [] {
      WithoutMembers(s[..|s| - 1], P, x);
      assert s == s[..|s| - 1] + [s[|s| - 1]];
    }
  }

  lemma {:induction false} WithoutDistinct(s: seq<int>, P: set<int>)
    requires Distinct(s)
    ensures Distinct(Without(s, P))
  {
    if s != [] {
      var t, last := s[..|s| - 1], s[|s| - 1];
      WithoutDistinct(t, P);
      WithoutMembers(t, P, last);
    }
  }

  /** Taking out one more element cuts exactly its place. */
  lemma {:induction false} WithoutOneMore(s: seq<int>, P: set<int>, g: int)
    requires Distinct(s) && 0 <= g < |Without(s, P)|
    ensures Without(s, P + {Without(s, P)[g]}) == Without(s, P)[..g] + Without(s, P)[g + 1..]
    decreases |s|
  {
    var t, last, U := s[..|s| - 1], s[|s| - 1], Without(s, P);
    var x := U[g];
    WithoutMembers(t, P, last);
    if last !in P && g == |U| - 1 {
      WithoutAbsent(t, P, last);
    } else {
      WithoutOneMore(t, P, g);
      WithoutMembers(t, P, x);
      assert x != last;
    }
  }

  lemma {:induction false} WithoutAbsent(s: seq<int>, P: set<int>, x: int)
    requires x !in s
    ensures Without(s, P + {x}) == Without(s, P)
  {
    if s != [] {
      WithoutAbsent(s[..|s| - 1], P, x);
    }
  }

  /** How many are left. */
  lemma {:induction false} WithoutLength(s: seq<int>, P: set<int>)
    requires Distinct(s) && forall x :: x in P ==> x in s
    ensures |Without(s, P)| + |P| == |s|
  {
    if s == [] {
      forall x
        ensures x !in P
      {
        assert x !in s;
      }
      assert P == {};
    } else {
      var t, last := s[..|s| - 1], s[|s| - 1];
      forall x | x in P - {last}
        ensures x in t
      {
        assert s == t + [last];
      }
      WithoutLength(t, P - {last});
      if last in P {
        WithoutAbsent(t, P - {last}, last);
        assert P == P - {last} + {last};
      } else {
        assert P == P - {last};
      }
    }
  }

  // ---------- the ring ----------

  /** The slots in the order in which the view counts them: backwards from the slot before `start`. */
  function Ring(max: nat, start: int): (r: seq<int>)
    requires 0 <= start < max
    ensures |r| == max
    ensures forall k :: 0 <= k < max ==> r[k] == if k < start then start - 1 - k else start - 1 - k + max
  {
    seq(max, k => if k < start then start - 1 - k else start - 1 - k + max)
  }

  function Forward(max: nat, n: int): int { if n + 1 >= max then 0 else n + 1 }

  /** Moving the start by one slot turns the ring by one place. */
  lemma RingTurns(max: nat, start: int)
    requires 0 <= start < max
    ensures 0 <= Forward(max, start) < max
    ensures Ring(max, start) == Ring(max, start)[..max - 1] + [start]
    ensures Ring(max, Forward(max, start)) == [start] + Ring(max, start)[..max - 1]
  {
  }

  lemma RingIsAll(max: nat, start: int)
    requires 0 <= start < max
    ensures Distinct(Ring(max, start))
    ensures forall n :: n in Ring(max, start) <==> 0 <= n < max
  {
    var r := Ring(max, start);
    forall n | 0 <= n < max
      ensures n in r
    {
      assert r[if n < start then start - 1 - n else start - 1 - n + max] == n;
    }
  }

  /** Free slots in view order. */
  function Free(max: nat, start: int, P: set<int>): seq<int>
    requires 0 <= start < max
  {
    Without(Ring(max, start), P)
  }

  /** A step of the start over a pinned slot changes nothing, over a free slot it moves that slot
      from the last place to the first. */
  lemma FreeTurns(max: nat, start: int, P: set<int>)
    requires 0 <= start < max
    ensures 0 <= Forward(max, start) < max
    ensures start in P ==> Free(max, Forward(max, start), P) == Free(max, start, P)
    ensures start !in P ==> Free(max, start, P) != [] && Free(max, start, P)[|Free(max, start, P)| - 1] == start
    ensures start !in P ==>
              Free(max, Forward(max, start), P) == [start] + Free(max, start, P)[..|Free(max, start, P)| - 1]
  {
    RingTurns(max, start);
    var front := Ring(max, start)[..max - 1];
    WithoutConcat(front, [start], P);
    WithoutConcat([start], front, P);
    assert Without([start], P) == if start in P then [] else [start] by {
      assert [start][..0] == [];
    }
  }

  // ---------- what the two cursors and the pin table say ----------

  function CountPins(wi: seq<int>, i: int): (c: int)
    requires 0 <= i
    ensures 0 <= c <= i
  {
    if i == 0 then 0 else CountPins(wi, i - 1) + if i - 1 < |wi| && wi[i - 1] == i - 1 then 1 else 0
  }

  function PinSlots(wi: seq<int>, ni: seq<int>, i: int): set<int>
    requires 0 <= i <= |wi| && |wi| == |ni|
  {
    if i == 0 then {} else PinSlots(wi, ni, i - 1) + if wi[i - 1] == i - 1 then {ni[i - 1]} else {}
  }

  /** The file-level variables but for the records themselves: MAX, nstart and the PIN table. */
  datatype Index = Index(max: int, start: int, wi: seq<int>, ni: seq<int>) {

    /** VALID_PIN. */
    predicate PinAt(i: int) { 0 <= i < |wi| && wi[i] == i }

    /** The number of pinned positions before i. */
    function Before(i: int): (c: int)
      requires 0 <= i
      ensures 0 <= c <= i
    {
      CountPins(wi, i)
    }

    /** The slots of the pins among the first i positions. */
    function Slots(i: int): set<int>
      requires 0 <= i <= |wi| && |wi| == |ni|
    {
      PinSlots(wi, ni, i)
    }

    function Pinned(): set<int>
      requires |wi| == |ni|
    {
      Slots(|wi|)
    }

    ghost predicate Valid() {
      && 0 <= start < max && |wi| == |ni| && |wi| + 1 < max
      && (forall i :: PinAt(i) ==> 0 <= ni[i] < max && ni[i] != start)
      && (forall i, k :: PinAt(i) && PinAt(k) && i < k ==> ni[i] != ni[k])
    }

    function FreeSlots(): seq<int>
      requires 0 <= start < max && |wi| == |ni|
    {
      Free(max, start, Pinned())
    }
  }

  lemma {:induction false} SlotsMembers(ix: Index, i: int, n: int)
    requires 0 <= i <= |ix.wi| && |ix.wi| == |ix.ni|
    ensures n in ix.Slots(i) <==> exists k :: 0 <= k < i && ix.PinAt(k) && ix.ni[k] == n
  {
    if i > 0 {
      SlotsMembers(ix, i - 1, n);
    }
  }

  lemma {:induction false} SlotsCount(ix: Index, i: int)
    requires ix.Valid() && 0 <= i <= |ix.wi|
    ensures |ix.Slots(i)| == ix.Before(i)
  {
    if i > 0 {
      SlotsCount(ix, i - 1);
      if ix.PinAt(i - 1) {
        SlotsMembers(ix, i - 1, ix.ni[i - 1]);
      }
    }
  }

  lemma {:induction false} BeforeBeyond(ix: Index, i: int)
    requires |ix.wi| <= i
    ensures ix.Before(i) == ix.Before(|ix.wi|)
  {
    if |ix.wi| < i {
      BeforeBeyond(ix, i - 1);
    }
  }

  /** Counting pins between two positions. */
  lemma {:induction false} BeforeGrows(ix: Index, i: int, k: int)
    requires 0 <= i <= k
    ensures ix.Before(i) <= ix.Before(k) <= ix.Before(i) + k - i
    ensures i < k && !ix.PinAt(i) ==> ix.Before(k) < ix.Before(i) + k - i
    decreases k
  {
    if i < k {
      BeforeGrows(ix, i, k - 1);
    }
  }

  lemma PinnedSlots(ix: Index)
    requires ix.Valid()
    ensures |ix.Pinned()| == ix.Before(|ix.wi|)
    ensures forall n :: n in ix.Pinned() ==> 0 <= n < ix.max && n != ix.start
  {
    hide PinSlots, CountPins;
    SlotsCount(ix, |ix.wi|);
    forall n | n in ix.Pinned()
      ensures 0 <= n < ix.max && n != ix.start
    {
      SlotsMembers(ix, |ix.wi|, n);
    }
  }

  /** There are as many free slots as unpinned positions, and the last of them is the start. */
  lemma FreeSlotsCount(ix: Index)
    requires ix.Valid()
    ensures |ix.FreeSlots()| == ix.max - ix.Before(|ix.wi|) && Distinct(ix.FreeSlots())
    ensures forall n :: n in ix.FreeSlots() <==> 0 <= n < ix.max && n !in ix.Pinned()
    ensures ix.start !in ix.Pinned() && ix.FreeSlots()[|ix.FreeSlots()| - 1] == ix.start
  {
    PinnedSlots(ix);
    hide Without, Ring, Index.Pinned, Index.Before, Distinct;
    RingIsAll(ix.max, ix.start);
    WithoutLength(Ring(ix.max, ix.start), ix.Pinned());
    WithoutDistinct(Ring(ix.max, ix.start), ix.Pinned());
    forall n
      ensures n in ix.FreeSlots() <==> 0 <= n < ix.max && n !in ix.Pinned()
    {
      WithoutMembers(Ring(ix.max, ix.start), ix.Pinned(), n);
    }
    FreeTurns(ix.max, ix.start, ix.Pinned());
  }

  /** The place of an unpinned view position among the free slots. */
  lemma PlaceInRange(ix: Index, w: int)
    requires ix.Valid() && 0 <= w < ix.max && !ix.PinAt(w)
    ensures 0 <= w - ix.Before(w) < |ix.FreeSlots()|
    ensures w < |ix.wi| ==> w - ix.Before(w) < |ix.FreeSlots()| - 1
    ensures w >= |ix.wi| ==> ix.Before(w) == ix.Before(|ix.wi|)
  {
    FreeSlotsCount(ix);
    if w < |ix.wi| {
      BeforeGrows(ix, w, |ix.wi|);
    } else {
      BeforeBeyond(ix, w);
    }
  }

  /** The slot shown at view position w. */
  function SlotOf(ix: Index, w: int): (n: int)
    requires ix.Valid() && 0 <= w < ix.max
    ensures 0 <= n < ix.max
  {
    if ix.PinAt(w) then ix.ni[w]
    else
      PlaceInRange(ix, w);
      FreeSlotsCount(ix);
      assert ix.FreeSlots()[w - ix.Before(w)] in ix.FreeSlots();
      ix.FreeSlots()[w - ix.Before(w)]
  }

  // ---------- the index map is a bijection ----------

  lemma SlotOfInjective(ix: Index, v: int, w: int)
    requires ix.Valid() && 0 <= v < w < ix.max
    ensures SlotOf(ix, v) != SlotOf(ix, w)
  {
    FreeSlotsCount(ix);
    BeforeGrows(ix, v, w);
    if ix.PinAt(v) {
      SlotsMembers(ix, |ix.wi|, ix.ni[v]);
    } else {
      PlaceInRange(ix, v);
      assert ix.FreeSlots()[v - ix.Before(v)] in ix.FreeSlots();
    }
    if ix.PinAt(w) {
      SlotsMembers(ix, |ix.wi|, ix.ni[w]);
    } else {
      PlaceInRange(ix, w);
      assert ix.FreeSlots()[w - ix.Before(w)] in ix.FreeSlots();
    }
  }

  /** The g-th unpinned position, counting from 0. */
  lemma {:induction false} UnpinnedPosition(ix: Index, g: int, bound: int) returns (w: int)
    requires ix.Valid() && 0 <= bound <= ix.max && 0 <= g < bound - ix.Before(bound)
    ensures 0 <= w < bound && !ix.PinAt(w) && w - ix.Before(w) == g
  {
    if g < bound - 1 - ix.Before(bound - 1) {
      w := UnpinnedPosition(ix, g, bound - 1);
    } else {
      w := bound - 1;
    }
  }

  /** Every slot is shown at some position. */
  lemma SlotOfOnto(ix: Index, n: int) returns (w: int)
    requires ix.Valid() && 0 <= n < ix.max
    ensures 0 <= w < ix.max && SlotOf(ix, w) == n
  {
    FreeSlotsCount(ix);
    if n in ix.Pinned() {
      SlotsMembers(ix, |ix.wi|, n);
      w :| 0 <= w < |ix.wi| && ix.PinAt(w) && ix.ni[w] == n;
    } else {
      assert n in ix.FreeSlots();
      var g :| 0 <= g < |ix.FreeSlots()| && ix.FreeSlots()[g] == n;
      BeforeBeyond(ix, ix.max);
      w := UnpinnedPosition(ix, g, ix.max);
    }
  }

  // ---------- what pinning, unpinning and turning do to the map ----------

  /** Pinning a view position changes neither what it shows nor what any other position shows. */
  function WithPin(ix: Index, w: int): Index
    requires ix.Valid() && 0 <= w < |ix.wi|
  {
    ix.(wi := ix.wi[w := w], ni := ix.ni[w := SlotOf(ix, w)])
  }

  lemma {:induction false} BeforeWithPin(ix: Index, w: int, i: int)
    requires ix.Valid() && 0 <= w < |ix.wi| && 0 <= i
    ensures WithPin(ix, w).Before(i) == ix.Before(i) + if w < i && !ix.PinAt(w) then 1 else 0
  {
    if i > 0 {
      BeforeWithPin(ix, w, i - 1);
    }
  }

  lemma {:induction false} SlotsWithPin(ix: Index, w: int, i: int)
    requires ix.Valid() && 0 <= w < |ix.wi| && 0 <= i <= |ix.wi|
    ensures WithPin(ix, w).Slots(i) == ix.Slots(i) + if w < i then {SlotOf(ix, w)} else {}
  {
    if i > 0 {
      SlotsWithPin(ix, w, i - 1);
    }
  }

  lemma WithPinValid(ix: Index, w: int)
    requires ix.Valid() && 0 <= w < |ix.wi|
    ensures WithPin(ix, w).Valid()
  {
    if !ix.PinAt(w) {
      FreeSlotsCount(ix);
      PlaceInRange(ix, w);
      assert SlotOf(ix, w) in ix.FreeSlots();
      forall i | ix.PinAt(i)
        ensures ix.ni[i] != SlotOf(ix, w)
      {
        SlotsMembers(ix, |ix.wi|, ix.ni[i]);
      }
    }
  }

  lemma WithPinFree(ix: Index, w: int)
    requires ix.Valid() && 0 <= w < |ix.wi| && !ix.PinAt(w)
    ensures 0 <= w - ix.Before(w) < |ix.FreeSlots()|
    ensures var U, g := ix.FreeSlots(), w - ix.Before(w);
            WithPin(ix, w).FreeSlots() == U[..g] + U[g + 1..]
  {
    PlaceInRange(ix, w);
    SlotsWithPin(ix, w, |ix.wi|);
    RingIsAll(ix.max, ix.start);
    WithoutOneMore(Ring(ix.max, ix.start), ix.Pinned(), w - ix.Before(w));
  }

  lemma PinKeepsView(ix: Index, w: int, v: int)
    requires ix.Valid() && 0 <= w < |ix.wi| && 0 <= v < ix.max
    ensures WithPin(ix, w).Valid() && SlotOf(WithPin(ix, w), v) == SlotOf(ix, v)
  {
    WithPinValid(ix, w);
    var after := WithPin(ix, w);
    if ix.PinAt(w) {
      assert after.wi == ix.wi && after.ni == ix.ni;
    } else if v != w && !ix.PinAt(v) {
      WithPinFree(ix, w);
      BeforeWithPin(ix, w, v);
      PlaceInRange(ix, v);
      if v < w {
        BeforeGrows(ix, v, w);
      } else {
        BeforeGrows(ix, w, v);
      }
    }
  }

  lemma WithoutSingle(x: int, P: set<int>)
    ensures Without([x], P) == if x in P then [] else [x]
  {
    assert [x][..0] == [];
  }

  lemma {:induction false} WithoutTwice(s: seq<int>, P: set<int>, Q: set<int>)
    ensures Without(Without(s, P), Q) == Without(s, P + Q)
  {
    if s != [] {
      var t, last := s[..|s| - 1], s[|s| - 1];
      WithoutTwice(t, P, Q);
      if last !in P {
        WithoutConcat(Without(t, P), [last], Q);
        WithoutSingle(last, Q);
        assert Without(s, P) == Without(t, P) + [last];
      } else {
        assert Without(s, P) == Without(t, P);
      }
    }
  }

  lemma {:induction false} SlotsWithoutPin(ix: Index, w: int, x: int, i: int)
    requires ix.Valid() && ix.PinAt(w) && x != w && 0 <= i <= |ix.wi|
    ensures var after := ix.(wi := ix.wi[w := x]);
            ix.Slots(i) == after.Slots(i) + if w < i then {ix.ni[w]} else {}
  {
    if i > 0 {
      SlotsWithoutPin(ix, w, x, i - 1);
    }
  }

  /** Unpinning returns the slot to its place in the ring: without it the free slots are as before. */
  lemma UnpinReturnsSlot(ix: Index, w: int)
    requires ix.Valid() && ix.PinAt(w)
    ensures var after := ix.(wi := ix.wi[w := -1]);
            && after.Valid() && !after.PinAt(w) && (forall i :: i != w ==> (after.PinAt(i) <==> ix.PinAt(i)))
            && ix.ni[w] in after.FreeSlots() && Without(after.FreeSlots(), {ix.ni[w]}) == ix.FreeSlots()
  {
    UnpinValid(ix, w);
    hide Index.Valid, SlotOf;
    var after := ix.(wi := ix.wi[w := -1]);
    SlotsWithoutPin(ix, w, -1, |ix.wi|);
    WithoutTwice(Ring(ix.max, ix.start), after.Pinned(), {ix.ni[w]});
    assert ix.Pinned() == after.Pinned() + {ix.ni[w]};
    SlotsMembers(after, |ix.wi|, ix.ni[w]);
    FreeSlotsCount(after);
  }

  lemma UnpinValid(ix: Index, w: int)
    requires ix.Valid() && ix.PinAt(w)
    ensures var after := ix.(wi := ix.wi[w := -1]);
            && after.Valid() && !after.PinAt(w) && (forall i :: i != w ==> (after.PinAt(i) <==> ix.PinAt(i)))
    ensures |ix.wi| == |ix.ni| && 0 <= ix.start < ix.max && 0 <= ix.ni[w] < ix.max
  {
  }

  predicate InRange(U: seq<int>, n: int) {
    forall g :: 0 <= g < |U| ==> 0 <= U[g] < n
  }

  /** What the free slots hold, in view order. */
  function Records(U: seq<int>, files: seq<string>): (r: seq<string>)
    requires InRange(U, |files|)
    ensures |r| == |U|
    ensures forall g :: 0 <= g < |U| ==> r[g] == files[U[g]]
  {
    seq(|U|, g requires 0 <= g < |U| => files[U[g]])
  }

  /** x comes first, and the last element is dropped. */
  function PushFront<T>(x: T, s: seq<T>): (r: seq<T>)
    ensures |r| == |s|
  {
    if s == [] then [] else [x] + s[..|s| - 1]
  }

  /** Writing a record at the start and moving the start puts it first and forgets the last one. */
  lemma AddShifts(U: seq<int>, files: seq<string>, start: int, file: string)
    requires U != [] && U[|U| - 1] == start && Distinct(U) && InRange(U, |files|)
    ensures InRange(PushFront(start, U), |files|)
    ensures Records(PushFront(start, U), files[start := file]) == PushFront(file, Records(U, files))
  {
    var turned, after := PushFront(start, U), files[start := file];
    forall g | 0 <= g < |turned|
      ensures 0 <= turned[g] < |files| && after[turned[g]] == if g == 0 then file else files[U[g - 1]]
    {
      if g > 0 {
        assert turned[g] == U[g - 1];
      }
    }
    ShiftedRecords(U, files, turned, after, file);
  }

  lemma ShiftedRecords(U: seq<int>, files: seq<string>, turned: seq<int>, after: seq<string>, file: string)
    requires U != [] && InRange(U, |files|) && |turned| == |U| && |after| == |files| && InRange(turned, |after|)
    requires forall g :: 0 <= g < |turned| ==> after[turned[g]] == if g == 0 then file else files[U[g - 1]]
    ensures Records(turned, after) == PushFront(file, Records(U, files))
  {
  }

  lemma FreeInRange(ix: Index)
    requires ix.Valid()
    ensures InRange(ix.FreeSlots(), ix.max)
  {
    FreeSlotsCount(ix);
    forall g | 0 <= g < |ix.FreeSlots()|
      ensures 0 <= ix.FreeSlots()[g] < ix.max
    {
      assert ix.FreeSlots()[g] in ix.FreeSlots();
    }
  }

  function ViewOf(ix: Index, files: seq<string>): (v: seq<string>)
    requires ix.Valid() && |files| == ix.max
    ensures |v| == ix.max && forall w :: 0 <= w < ix.max ==> v[w] == files[SlotOf(ix, w)]
  {
    seq(ix.max, w requires 0 <= w < ix.max => files[SlotOf(ix, w)])
  }

  /** What history_delete makes of the view: the last record but one goes to position wi, and leaves a
      blank. */
  function AfterDelete(v: seq<string>, wi: int): (r: seq<string>)
    requires |v| >= 2 && 0 <= wi < |v|
    ensures |r| == |v|
  {
    v[wi := v[|v| - 2]][|v| - 2 := ""]
  }

  /** Documented is that the next record moves to the deleted position. Before the last two positions it
      does so exactly when it equals the last record but one. */
  lemma DeleteTakesNext(v: seq<string>, wi: int)
    requires 0 <= wi < |v| - 2
    ensures AfterDelete(v, wi)[wi] == v[wi + 1] <==> v[wi + 1] == v[|v| - 2]
  {
  }

  /** A state in which it does not: of a, b, c, d the first is deleted, and c moves up instead of b. */
  lemma DeleteSkipsNext(ix: Index, files: seq<string>)
    requires ix == Index(4, 0, [-1], [0]) && files == ["d", "c", "b", "a"]
    ensures ix.Valid() && ViewOf(ix, files) == ["a", "b", "c", "d"]
    ensures AfterDelete(ViewOf(ix, files), 0) == ["c", "b", "", "d"]
  {
    NothingPinned(ix);
    hide SlotOf, Index.Valid, Ring;
    assert ViewOf(ix, files) == ["a", "b", "c", "d"];
  }

  lemma NothingPinned(ix: Index)
    requires ix == Index(4, 0, [-1], [0])
    ensures ix.Valid() && forall w :: 0 <= w < 4 ==> SlotOf(ix, w) == 3 - w
  {
    assert ix.Slots(0) == {} && ix.Pinned() == {};
    WithoutNothing(Ring(4, 0));
    assert ix.FreeSlots() == Ring(4, 0);
    forall w | 0 <= w < 4
      ensures SlotOf(ix, w) == 3 - w
    {
      NoPins(ix, w);
    }
  }

  lemma {:induction false} WithoutNothing(s: seq<int>)
    ensures Without(s, {}) == s
  {
    if s != [] {
      WithoutNothing(s[..|s| - 1]);
      assert s == s[..|s| - 1] + [s[|s| - 1]];
    }
  }

  lemma {:induction false} NoPins(ix: Index, w: int)
    requires 0 <= w && forall i :: !ix.PinAt(i)
    ensures ix.Before(w) == 0
  {
    if w > 0 {
      NoPins(ix, w - 1);
      assert !ix.PinAt(w - 1);
    }
  }

  class History {
    const max: int
    const view: int
    var nstart: int
    const pinWi: array<int>
    const pinNi: array<int>
    const hisFiles: array<string>

    ghost function Ix(): Index
      reads this, pinWi, pinNi
    {
      Index(max, nstart, pinWi[..], pinNi[..])
    }

    ghost predicate Valid()
      reads this, pinWi, pinNi
    {
      pinWi != pinNi && pinWi.Length == pinNi.Length == view && hisFiles.Length == max && Ix().Valid()
    }

    /** The record at view position w. */
    ghost function Shown(w: int): string
      requires Valid() && 0 <= w < max
      reads this, pinWi, pinNi, hisFiles
    {
      hisFiles[SlotOf(Ix(), w)]
    }

    /** The records of all view positions. */
    ghost function View(): seq<string>
      requires Valid()
      reads this, pinWi, pinNi, hisFiles
    {
      ViewOf(Ix(), hisFiles[..])
    }

    /** The records of the unpinned view positions, in order. */
    ghost function Unpinned(): seq<string>
      requires Valid()
      reads this, pinWi, pinNi, hisFiles
    {
      FreeInRange(Ix());
      Records(Ix().FreeSlots(), hisFiles[..])
    }

    /** The initial PIN table gives only its first entry a position; the other entries are zero. */
    constructor (max: int, view: int)
      requires 1 <= view && view + 1 < max
      ensures Valid() && this.max == max && this.view == view
      ensures fresh(pinWi) && fresh(pinNi) && fresh(hisFiles)
      ensures forall i :: !Ix().PinAt(i)
      ensures forall w :: 0 <= w < max ==> Shown(w) == ""
    {
      this.max, this.view, nstart := max, view, 0;
      pinWi := new int[view](i => if i == 0 then -1 else 0);
      pinNi := new int[view](_ => 0);
      hisFiles := new string[max](_ => "");
    }

    /** occupy_by_pin. */
    method Occupied(ni: int) returns (r: bool)
      requires pinWi.Length == pinNi.Length == view
      ensures r <==> ni in Ix().Pinned()
    {
      SlotsMembers(Ix(), view, ni);
      var i := 0;
      while i < view
        invariant 0 <= i <= view
        invariant forall k :: 0 <= k < i && Ix().PinAt(k) ==> pinNi[k] != ni
      {
        if pinWi[i] == i && ni == pinNi[i] {
          return true;
        }
        i := i + 1;
      }
      return false;
    }

    method PinnedBefore(wi: int) returns (ret: int)
      requires Valid() && 0 <= wi
      ensures ret == Ix().Before(wi)
    {
      var i := 0;
      ret := 0;
      while i < wi
        invariant 0 <= i <= wi && ret == Ix().Before(i)
      {
        if i < view && pinWi[i] == i {
          ret := ret + 1;
        }
        i := i + 1;
      }
    }

    /** n_index_form_w: the counting loop ends, at the slot of the position. */
    method NIndexFromW(wi: int) returns (nj: int)
      requires Valid() && 0 <= wi < max
      ensures nj == SlotOf(Ix(), wi)
    {
      if wi < view && pinWi[wi] == wi {
        return pinNi[wi];
      }
      hide Without, PinSlots, CountPins, Distinct, Ring, SlotOf, Free, Index.Valid, WalkAt, WalkedFree;
      ghost var ix, k := Ix(), 0;
      WalkStarts(ix);
      var under := PinnedBefore(wi);
      var count := 0;
      nj := nstart;
      while true
        invariant 0 <= k <= max && nj == WalkAt(ix, k) && count == WalkedFree(ix, k) && count + under <= wi
        decreases max - k
      {
        WalkStep(ix, wi, k);
        nj := nj - 1;
        if nj < 0 {
          nj := max - 1;
        }
        k := k + 1;
        var taken := Occupied(nj);
        if !taken {
          if count + under == wi {
            return;
          }
          count := count + 1;
        }
      }
    }

    /** inc_start: the start moves to the next free slot; the slot it leaves becomes the first one. */
    method IncStart()
      requires Valid()
      modifies this`nstart
      ensures Valid()
      ensures Ix().FreeSlots() == PushFront(old(nstart), old(Ix().FreeSlots()))
    {
      hide Without, Ring, Free, PinSlots, CountPins, Distinct;
      ghost var P, first := Ix().Pinned(), nstart;
      FreeSlotsCount(Ix());
      FreeTurns(max, nstart, P);
      ghost var turned := PushFront(first, Ix().FreeSlots());
      nstart := nstart + 1;
      if max <= nstart {
        nstart := 0;
      }
      var taken := Occupied(nstart);
      while taken
        invariant 0 <= nstart < max && Ix().Pinned() == P && taken == (nstart in P)
        invariant Free(max, nstart, P) == turned
        decreases if nstart <= first then first - nstart else first - nstart + max
      {
        FreeTurns(max, nstart, P);
        nstart := nstart + 1;
        if max <= nstart {
          nstart := 0;
        }
        taken := Occupied(nstart);
      }
      StartIsFree(old(Ix()), nstart);
    }

    method HistoryGet(wi: int) returns (file: string)
      requires Valid() && 0 <= wi < max
      ensures file == Shown(wi)
    {
      var nj := NIndexFromW(wi);
      file := hisFiles[nj];
    }

    /** The walk over the home page that history_add does with containVisitor. */
    method InView(file: string) returns (flag: bool)
      requires Valid()
      ensures flag <==> exists w :: 0 <= w < view && Shown(w) == file
    {
      hide SlotOf;
      var i := 0;
      flag := false;
      ghost var v := View();
      while i < view
        invariant 0 <= i <= view && v == View()
        invariant flag <==> file in v[..i]
      {
        var f := HistoryGet(i);
        assert v[..i + 1] == v[..i] + [f];
        if f == file {
          flag := true;
        }
        i := i + 1;
      }
      assert forall w :: 0 <= w < view ==> v[..view][w] == Shown(w);
    }

    /** history_add: a file already on the home page changes nothing. Any other becomes the first
        unpinned record and pushes the last one out, and pinned positions show what they showed. */
    method HistoryAdd(file: string) returns (added: bool)
      requires Valid()
      modifies this`nstart, hisFiles
      ensures Valid() && pinWi[..] == old(pinWi[..]) && pinNi[..] == old(pinNi[..])
      ensures added <==> !exists w :: 0 <= w < view && old(Shown(w)) == file
      ensures !added ==> nstart == old(nstart) && hisFiles[..] == old(hisFiles[..])
      ensures added ==> Unpinned() == PushFront(file, old(Unpinned()))
      ensures added ==> forall w :: 0 <= w < max && Ix().PinAt(w) ==> Shown(w) == old(Shown(w))
    {
      hide Without, Ring, Free, PinSlots, CountPins, Distinct;
      var flag := InView(file);
      if flag {
        return false;
      }
      forall w | 0 <= w < view
        ensures old(Shown(w)) != file
      {
        assert Shown(w) != file;
      }
      ghost var ix, files := Ix(), hisFiles[..];
      FreeSlotsCount(ix);
      FreeInRange(ix);
      AddShifts(ix.FreeSlots(), files, nstart, file);
      hisFiles[nstart] := file;
      assert hisFiles[..] == files[nstart := file];
      IncStart();
      return true;
    }

    /** The forward walk of history_delete ends at the slot of position MAX-2. */
    method SlotAfterStart() returns (nj: int)
      requires Valid()
      ensures nj == SlotOf(Ix(), max - 2)
    {
      hide Without, Ring, Free, PinSlots, CountPins, Distinct, SlotOf;
      ghost var ix, P := Ix(), Ix().Pinned();
      FreeSlotsCount(ix);
      FreeTurns(max, nstart, P);
      ghost var turned := PushFront(nstart, ix.FreeSlots());
      nj := nstart + 1;
      if nj >= max {
        nj := 0;
      }
      var taken := Occupied(nj);
      while taken
        invariant 0 <= nj < max && taken == (nj in P) && Free(max, nj, P) == turned
        decreases if nj <= nstart then nstart - nj else nstart - nj + max
      {
        FreeTurns(max, nj, P);
        nj := nj + 1;
        if nj >= max {
          nj := 0;
        }
        taken := Occupied(nj);
      }
      FreeTurns(max, nj, P);
      LastButOne(ix);
    }

    /** history_delete: the record of view position MAX-2 moves to position wi, MAX-2 becomes blank,
        and nothing else changes. */
    method HistoryDelete(wi: int)
      requires Valid() && 0 <= wi < max
      modifies hisFiles
      ensures Valid() && Ix() == old(Ix())
      ensures forall w :: 0 <= w < max ==>
                Shown(w) == if w == max - 2 then "" else old(Shown(if w == wi then max - 2 else w))
      ensures View() == AfterDelete(old(View()), wi)
    {
      hide SlotOf;
      ghost var ix, files := Ix(), hisFiles[..];
      var nj := SlotAfterStart();
      var n := NIndexFromW(wi);
      forall w | 0 <= w < max
        ensures old(Shown(w)) == files[SlotOf(ix, w)]
      {
      }
      hisFiles[n] := hisFiles[nj];
      hisFiles[nj] := "";
      assert hisFiles[..] == files[n := files[nj]][nj := ""];
      forall w | 0 <= w < max
        ensures hisFiles[..][SlotOf(ix, w)] ==
                if w == max - 2 then "" else files[SlotOf(ix, if w == wi then max - 2 else w)]
      {
        SlotsDiffer(ix, w, wi);
        SlotsDiffer(ix, w, max - 2);
      }
      assert View() == AfterDelete(old(View()), wi);
    }

    /** history_pin: no position shows anything else than before. */
    method HistoryPin(wi: int)
      requires Valid()
      modifies pinWi, pinNi
      ensures Valid() && nstart == old(nstart)
      ensures forall i :: 0 <= i < view ==> (Ix().PinAt(i) <==> i == wi || old(Ix().PinAt(i)))
      ensures forall w :: 0 <= w < max ==> SlotOf(Ix(), w) == old(SlotOf(Ix(), w))
    {
      hide SlotOf;
      if wi >= 0 && wi < view {
        ghost var ix := Ix();
        var ni := NIndexFromW(wi);
        pinNi[wi] := ni;
        pinWi[wi] := wi;
        assert Ix() == WithPin(ix, wi);
        forall w | 0 <= w < max
          ensures Ix().Valid() && SlotOf(Ix(), w) == SlotOf(ix, w)
        {
          PinKeepsView(ix, wi, w);
        }
        PinKeepsView(ix, wi, 0);
      }
    }

    /** history_unpin: only position wi is unpinned, and its slot goes back to its place in the ring. */
    method HistoryUnpin(wi: int)
      requires Valid() && 0 <= wi
      modifies pinWi
      ensures Valid() && nstart == old(nstart)
      ensures forall i :: 0 <= i < view ==> (Ix().PinAt(i) <==> i != wi && old(Ix().PinAt(i)))
      ensures if old(Ix().PinAt(wi))
              then pinNi[wi] in Ix().FreeSlots() && Without(Ix().FreeSlots(), {pinNi[wi]}) == old(Ix().FreeSlots())
              else Ix() == old(Ix())
      ensures forall w :: 0 <= w < max && Ix().PinAt(w) ==> Shown(w) == old(Shown(w))
      ensures old(Ix().PinAt(wi)) ==> Inserted(old(Unpinned()), Unpinned(), old(Shown(wi)))
    {
      hide Without, Ring, Free, PinSlots, CountPins, Distinct, Inserted;
      if wi < view && pinWi[wi] == wi {
        ghost var ix := Ix();
        UnpinReturnsSlot(ix, wi);
        UnpinReturnsRecord(ix, wi, hisFiles[..]);
        ghost var shown := hisFiles[pinNi[wi]];
        assert Shown(wi) == shown;
        pinWi[wi] := -1;
        assert Ix() == ix.(wi := ix.wi[wi := -1]);
      }
    }
  }

  /** `after` is `before` with x put in somewhere. */
  ghost predicate Inserted(before: seq<string>, after: seq<string>, x: string) {
    exists g :: 0 <= g < |after| && after[g] == x && before == after[..g] + after[g + 1..]
  }

  /** The record at a pinned position joins the unpinned ones, which stay in order. */
  lemma UnpinReturnsRecord(ix: Index, w: int, files: seq<string>)
    requires ix.Valid() && ix.PinAt(w) && |files| == ix.max
    ensures var after := ix.(wi := ix.wi[w := -1]);
            && after.Valid() && InRange(after.FreeSlots(), |files|) && InRange(ix.FreeSlots(), |files|)
            && Inserted(Records(ix.FreeSlots(), files), Records(after.FreeSlots(), files), files[ix.ni[w]])
  {
    hide Without, Ring, Free, PinSlots, CountPins;
    UnpinReturnsSlot(ix, w);
    var after := ix.(wi := ix.wi[w := -1]);
    FreeSlotsCount(after);
    FreeInRange(after);
    FreeInRange(ix);
    var U, n := after.FreeSlots(), ix.ni[w];
    var g :| 0 <= g < |U| && U[g] == n;
    WithoutNothing(U);
    WithoutOneMore(U, {}, g);
    assert {} + {n} == {n};
    var R := Records(U, files);
    assert R[g] == files[n];
    assert Records(ix.FreeSlots(), files) == R[..g] + R[g + 1..];
  }

  lemma SlotsDiffer(ix: Index, v: int, w: int)
    requires ix.Valid() && 0 <= v < ix.max && 0 <= w < ix.max
    ensures v != w ==> SlotOf(ix, v) != SlotOf(ix, w)
  {
    if v < w {
      SlotOfInjective(ix, v, w);
    } else if w < v {
      SlotOfInjective(ix, w, v);
    }
  }

  /** The slot after the start is the one shown at position MAX-2, which is never pinned. */
  lemma LastButOne(ix: Index)
    requires ix.Valid()
    ensures |ix.FreeSlots()| >= 2 && SlotOf(ix, ix.max - 2) == ix.FreeSlots()[|ix.FreeSlots()| - 2]
  {
    FreeSlotsCount(ix);
    PlaceInRange(ix, ix.max - 2);
    BeforeGrows(ix, 0, |ix.wi|);
  }

  /** The record at an unpinned position is the one at its place in the unpinned sequence. */
  lemma UnpinnedPlace(h: History, w: int)
    requires h.Valid() && 0 <= w < h.max && !h.Ix().PinAt(w)
    ensures 0 <= w - h.Ix().Before(w) < |h.Unpinned()|
    ensures h.Shown(w) == h.Unpinned()[w - h.Ix().Before(w)]
  {
    PlaceInRange(h.Ix(), w);
    FreeInRange(h.Ix());
  }

  lemma StartIsFree(ix: Index, n: int)
    requires ix.Valid() && 0 <= n < ix.max && n !in ix.Pinned()
    ensures ix.(start := n).Valid()
  {
    forall i | ix.PinAt(i)
      ensures ix.ni[i] != n
    {
      SlotsMembers(ix, |ix.wi|, ix.ni[i]);
    }
  }

  /** The slot reached after k steps down from the start, and how many free slots were passed. */
  ghost function WalkAt(ix: Index, k: int): int
    requires 0 <= ix.start < ix.max && 0 <= k <= ix.max
  {
    if k == 0 then ix.start else Ring(ix.max, ix.start)[k - 1]
  }

  ghost function WalkedFree(ix: Index, k: int): nat
    requires 0 <= ix.start < ix.max && 0 <= k <= ix.max && |ix.wi| == |ix.ni|
  {
    |Without(Ring(ix.max, ix.start)[..k], ix.Pinned())|
  }

  lemma WalkStarts(ix: Index)
    requires ix.Valid()
    ensures WalkAt(ix, 0) == ix.start && WalkedFree(ix, 0) == 0
  {
    assert Ring(ix.max, ix.start)[..0] == [];
  }

  /** As long as fewer free slots than needed were passed there is a next slot; the free slot that completes
      the count is the one shown. */
  lemma WalkStep(ix: Index, w: int, k: int)
    requires ix.Valid() && 0 <= w < ix.max && !ix.PinAt(w) && 0 <= k <= ix.max
    requires WalkedFree(ix, k) + ix.Before(w) <= w
    ensures k < ix.max
    ensures WalkAt(ix, k + 1) == if WalkAt(ix, k) == 0 then ix.max - 1 else WalkAt(ix, k) - 1
    ensures WalkedFree(ix, k + 1) == WalkedFree(ix, k) + if WalkAt(ix, k + 1) in ix.Pinned() then 0 else 1
    ensures WalkAt(ix, k + 1) !in ix.Pinned() && WalkedFree(ix, k) + ix.Before(w) == w ==>
              WalkAt(ix, k + 1) == SlotOf(ix, w)
  {
    hide Without, PinSlots, CountPins, Distinct;
    PlaceInRange(ix, w);
    RingPrefix(Ring(ix.max, ix.start), ix.Pinned(), k);
  }

  lemma RingPrefix(ring: seq<int>, P: set<int>, k: int)
    requires 0 <= k <= |ring|
    ensures k == |ring| ==> Without(ring[..k], P) == Without(ring, P)
    ensures k < |ring| ==> Without(ring[..k + 1], P) == Without(ring[..k], P) + if ring[k] in P then [] else [ring[k]]
    ensures k < |ring| && ring[k] !in P ==>
              |Without(ring[..k], P)| < |Without(ring, P)| && Without(ring, P)[|Without(ring[..k], P)|] == ring[k]
  {
    assert ring == ring[..k] + ring[k..];
    assert k == |ring| ==> ring[..k] == ring;
    WithoutConcat(ring[..k], ring[k..], P);
    if k < |ring| {
      assert ring[..k + 1][..k] == ring[..k];
      assert ring == ring[..k + 1] + ring[k + 1..];
      WithoutConcat(ring[..k + 1], ring[k + 1..], P);
    }
  }
}
