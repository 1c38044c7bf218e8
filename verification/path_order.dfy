/** The path order of filesearch/search.c: path_cmp2 over file_name_cmp, compared with the order of
    the lists of names from the root down. */
module PathOrder {
  import opened Chars
  import opened FileTree

  type NameBytes = seq<byte>

  // ---------- orders on lists ----------

  /** Byte by byte, then the shorter first. */
  function NameOrder(x: NameBytes, y: NameBytes): (r: int)
    ensures -1 <= r <= 1
  {
    if x == [] && y == [] then 0
    else if x == [] then -1
    else if y == [] then 1
    else if x[0] < y[0] then -1
    else if x[0] > y[0] then 1
    else NameOrder(x[1..], y[1..])
  }

  /** Name by name from the root, then the shorter path first. */
  function PathsOrder(xs: seq<NameBytes>, ys: seq<NameBytes>): (r: int)
    ensures -1 <= r <= 1
  {
    if xs == [] && ys == [] then 0
    else if xs == [] then -1
    else if ys == [] then 1
    else
      var c := NameOrder(xs[0], ys[0]);
      if c != 0 then c else PathsOrder(xs[1..], ys[1..])
  }

  lemma {:induction false} NameOrderLaws(x: NameBytes, y: NameBytes, z: NameBytes)
    ensures NameOrder(x, y) == -NameOrder(y, x)
    ensures NameOrder(x, y) == 0 <==> x == y
    ensures NameOrder(x, y) <= 0 && NameOrder(y, z) <= 0 ==> NameOrder(x, z) <= 0
    ensures NameOrder(x, y) < 0 && NameOrder(y, z) <= 0 ==> NameOrder(x, z) < 0
    ensures NameOrder(x, y) <= 0 && NameOrder(y, z) < 0 ==> NameOrder(x, z) < 0
    decreases |x|
  {
    if x != [] && y != [] {
      NameOrderLaws(x[1..], y[1..], if z == [] then [] else z[1..]);
      assert x == [x[0]] + x[1..] && y == [y[0]] + y[1..];
    }
  }

  /** x stands before y: at the first byte in which they differ x has the smaller one, or x ends there. */
  ghost predicate NameBefore(x: NameBytes, y: NameBytes) {
    exists i :: NameBeforeAt(x, y, i)
  }

  predicate NameBeforeAt(x: NameBytes, y: NameBytes, i: int) {
    0 <= i <= |x| && i < |y| && x[..i] == y[..i] && (i < |x| ==> x[i] < y[i])
  }

  /** The same for paths, at the first name in which they differ. */
  ghost predicate PathBefore(xs: seq<NameBytes>, ys: seq<NameBytes>) {
    exists i :: PathBeforeAt(xs, ys, i)
  }

  ghost predicate PathBeforeAt(xs: seq<NameBytes>, ys: seq<NameBytes>, i: int) {
    0 <= i <= |xs| && i < |ys| && xs[..i] == ys[..i] && (i < |xs| ==> NameBefore(xs[i], ys[i]))
  }

  /** The direction of the order of names. */
  lemma {:induction false} NameOrderIsBefore(x: NameBytes, y: NameBytes)
    ensures NameOrder(x, y) < 0 <==> NameBefore(x, y)
    decreases |x|
  {
    if x == [] {
      assert y != [] ==> NameBeforeAt(x, y, 0);
    } else if y != [] {
      NameBeforeFirst(x, y);
      NameOrderIsBefore(x[1..], y[1..]);
    }
  }

  lemma NameBeforeFirst(x: NameBytes, y: NameBytes)
    requires x != [] && y != []
    ensures NameBefore(x, y) <==> x[0] < y[0] || (x[0] == y[0] && NameBefore(x[1..], y[1..]))
  {
    if x[0] < y[0] {
      assert NameBeforeAt(x, y, 0);
    }
    if i :| x[0] == y[0] && NameBeforeAt(x[1..], y[1..], i) {
      assert x[..i + 1] == [x[0]] + x[1..][..i] && y[..i + 1] == [y[0]] + y[1..][..i];
      assert NameBeforeAt(x, y, i + 1);
    }
    if i :| NameBeforeAt(x, y, i) && i > 0 {
      assert x[0] == x[..i][0] == y[..i][0] == y[0];
      assert x[1..][..i - 1] == x[..i][1..] && y[1..][..i - 1] == y[..i][1..];
      assert NameBeforeAt(x[1..], y[1..], i - 1);
    }
  }

  /** The direction of the order of paths. */
  lemma {:induction false} PathsOrderIsBefore(xs: seq<NameBytes>, ys: seq<NameBytes>)
    ensures PathsOrder(xs, ys) < 0 <==> PathBefore(xs, ys)
    decreases |xs|
  {
    hide NameOrder, NameBefore;
    if xs == [] {
      assert ys != [] ==> PathBeforeAt(xs, ys, 0);
    } else if ys != [] {
      NameOrderLaws(xs[0], ys[0], []);
      NameOrderIsBefore(xs[0], ys[0]);
      PathBeforeFirst(xs, ys);
      PathsOrderIsBefore(xs[1..], ys[1..]);
    }
  }

  lemma PathBeforeFirst(xs: seq<NameBytes>, ys: seq<NameBytes>)
    requires xs != [] && ys != []
    ensures PathBefore(xs, ys) <==> NameBefore(xs[0], ys[0]) || (xs[0] == ys[0] && PathBefore(xs[1..], ys[1..]))
  {
    hide NameBefore;
    if NameBefore(xs[0], ys[0]) {
      assert PathBeforeAt(xs, ys, 0);
    }
    if i :| xs[0] == ys[0] && PathBeforeAt(xs[1..], ys[1..], i) {
      assert xs[..i + 1] == [xs[0]] + xs[1..][..i] && ys[..i + 1] == [ys[0]] + ys[1..][..i];
      assert PathBeforeAt(xs, ys, i + 1);
    }
    if i :| PathBeforeAt(xs, ys, i) && i > 0 {
      assert xs[0] == xs[..i][0] == ys[..i][0] == ys[0];
      assert xs[1..][..i - 1] == xs[..i][1..] && ys[1..][..i - 1] == ys[..i][1..];
      assert PathBeforeAt(xs[1..], ys[1..], i - 1);
    }
  }

  /** The path order is a total preorder on paths that tells different paths apart. */
  lemma {:induction false} PathsOrderLaws(xs: seq<NameBytes>, ys: seq<NameBytes>, zs: seq<NameBytes>)
    ensures PathsOrder(xs, ys) == -PathsOrder(ys, xs)
    ensures PathsOrder(xs, ys) == 0 <==> xs == ys
    ensures PathsOrder(xs, ys) <= 0 && PathsOrder(ys, zs) <= 0 ==> PathsOrder(xs, zs) <= 0
    decreases |xs|
  {
    if xs != [] && ys != [] {
      NameOrderLaws(xs[0], ys[0], if zs == [] then [] else zs[0]);
      PathsOrderLaws(xs[1..], ys[1..], if zs == [] then [] else zs[1..]);
      assert xs == [xs[0]] + xs[1..] && ys == [ys[0]] + ys[1..];
    }
  }

  /** What lies below a directory comes after it. */
  lemma {:induction false} LongerIsLater(xs: seq<NameBytes>, more: seq<NameBytes>)
    requires more != []
    ensures PathsOrder(xs, xs + more) < 0
    decreases |xs|
  {
    if xs != [] {
      NameOrderLaws(xs[0], xs[0], []);
      assert (xs + more)[1..] == xs[1..] + more;
      LongerIsLater(xs[1..], more);
    }
  }

  // ---------- file_name_cmp ----------

  lemma NamesCompared(x: NameBytes, y: NameBytes)
    ensures NameOrder(x, y) < 0 <==> NameBefore(x, y)
    ensures NameOrder(x, y) > 0 <==> NameBefore(y, x)
    ensures NameOrder(x, y) == 0 <==> x == y
  {
    NameOrderLaws(x, y, []);
    NameOrderIsBefore(x, y);
    NameOrderIsBefore(y, x);
  }

  lemma PathsCompared(r: int, xs: seq<NameBytes>, ys: seq<NameBytes>)
    requires Sign(r, PathsOrder(xs, ys))
    ensures r < 0 <==> PathBefore(xs, ys)
    ensures r > 0 <==> PathBefore(ys, xs)
    ensures r == 0 <==> xs == ys
  {
    PathsOrderLaws(xs, ys, []);
    PathsOrderIsBefore(xs, ys);
    PathsOrderIsBefore(ys, xs);
  }

  predicate Sign(r: int, c: int) {
    (r < 0 <==> c < 0) && (r == 0 <==> c == 0)
  }

  /** strncmp on n bytes that are there in both names: it stops early at a NUL. */
  method StrNCmp(x: NameBytes, y: NameBytes, n: nat) returns (r: int)
    requires n <= |x| && n <= |y| && 0 !in x && 0 !in y
    ensures Sign(r, NameOrder(x[..n], y[..n]))
  {
    var i := 0;
    while i < n && x[i] == y[i] && x[i] != 0
      invariant 0 <= i <= n && NameOrder(x[..n], y[..n]) == NameOrder(x[..n][i..], y[..n][i..])
    {
      assert x[..n][i..][1..] == x[..n][i + 1..] && y[..n][i..][1..] == y[..n][i + 1..];
      i := i + 1;
    }
    return if i == n then 0 else x[i] as int - y[i] as int;
  }

  /** Comparing the common length first, then the lengths, is the order of names. */
  lemma {:induction false} NameOrderSplits(x: NameBytes, y: NameBytes, n: nat)
    requires n == if |x| < |y| then |x| else |y|
    ensures Sign(NameOrder(x, y),
                 if NameOrder(x[..n], y[..n]) != 0 then NameOrder(x[..n], y[..n]) else |x| - |y|)
    decreases n
  {
    if n > 0 && x[0] == y[0] {
      NameOrderSplits(x[1..], y[1..], n - 1);
      assert x[..n][1..] == x[1..][..n - 1] && y[..n][1..] == y[1..][..n - 1];
    }
  }

  /** Names hold no NUL byte. */
  ghost predicate NoNul(heap: Heap) {
    forall p :: p in heap ==> 0 !in heap[p].name.bytes
  }

  method FileNameCmp(heap: Heap, a: Ptr, b: Ptr) returns (r: int)
    requires NoNul(heap) && (a != 0 ==> a in heap) && (b != 0 ==> b in heap)
    ensures a != 0 && b != 0 ==> Sign(r, NameOrder(heap[a].name.bytes, heap[b].name.bytes))
    ensures a != 0 && b != 0 ==> (r < 0 <==> NameBefore(heap[a].name.bytes, heap[b].name.bytes))
    ensures a != 0 && b != 0 ==> (r > 0 <==> NameBefore(heap[b].name.bytes, heap[a].name.bytes))
    ensures a == 0 || b == 0 ==> r == if a == b then 0 else if a == 0 then -1 else 1
  {
    if a != 0 && b != 0 {
      NamesCompared(heap[a].name.bytes, heap[b].name.bytes);
      hide NameOrder, NameBefore;
    }
    if a == b {
      return 0;
    }
    if a == 0 {
      return -1;
    }
    if b == 0 {
      return 1;
    }
    var x, y := heap[a].name.bytes, heap[b].name.bytes;
    var n := if |x| < |y| then |x| else |y|;
    NameOrderSplits(x, y, n);
    r := StrNCmp(x, y, n);
    if r != 0 {
      return r;
    }
    return |x| - |y|;
  }

  // ---------- path_cmp2 ----------

  /** The names from the root down to p. */
  ghost function PathOf(heap: Heap, rank: map<Ptr, nat>, p: Ptr): (path: seq<NameBytes>)
    requires Linked(heap) && Ranked(heap, rank) && p in heap
    ensures path != []
    decreases rank[p]
  {
    if Attached(heap, p) then
      assert NodeOk(heap, p);
      PathOf(heap, rank, heap[p].up.ptr) + [heap[p].name.bytes]
    else [heap[p].name.bytes]
  }

  /** s holds the entries from p up, and then come those from `next` up. */
  ghost predicate Climbed(heap: Heap, rank: map<Ptr, nat>, p: Ptr, s: seq<Ptr>, next: Ptr) {
    && Linked(heap) && Ranked(heap, rank) && p in heap && (next != 0 ==> next in heap)
    && (forall k :: 0 <= k < |s| ==> s[k] in heap)
    && PathOf(heap, rank, p) == (if next == 0 then [] else PathOf(heap, rank, next)) + Names(heap, s)
  }

  /** The names of the entries, last entry first. */
  function Names(heap: Heap, s: seq<Ptr>): (r: seq<NameBytes>)
    requires forall k :: 0 <= k < |s| ==> s[k] in heap
    ensures |r| == |s| && forall k :: 0 <= k < |s| ==> r[k] == heap[s[|s| - 1 - k]].name.bytes
  {
    seq(|s|, k requires 0 <= k < |s| => heap[s[|s| - 1 - k]].name.bytes)
  }

  lemma ClimbMore(heap: Heap, rank: map<Ptr, nat>, p: Ptr, s: seq<Ptr>, a: Ptr)
    requires Climbed(heap, rank, p, s, a) && a != 0
    requires Attached(heap, a) || heap[a].up.Parent? || heap[a].up.key == 0
    ensures Climbed(heap, rank, p, s + [a], if Attached(heap, a) then heap[a].up.ptr else 0)
    ensures Attached(heap, a) ==>
              && heap[a].up.ptr in heap && a in rank && heap[a].up.ptr in rank
              && rank[heap[a].up.ptr] < rank[a]
    ensures |s| < |PathOf(heap, rank, p)|
  {
    assert NodeOk(heap, a);
    hide NodeOk, Names;
    NamesMore(heap, s, a);
    if Attached(heap, a) {
      Regroup(PathOf(heap, rank, heap[a].up.ptr), [heap[a].name.bytes], Names(heap, s));
    }
  }

  lemma NamesMore(heap: Heap, s: seq<Ptr>, a: Ptr)
    requires a in heap && forall k :: 0 <= k < |s| ==> s[k] in heap
    ensures Names(heap, s + [a]) == [heap[a].name.bytes] + Names(heap, s)
  {
  }

  lemma Regroup(a: seq<NameBytes>, b: seq<NameBytes>, c: seq<NameBytes>)
    ensures a + b + c == a + (b + c)
  {
  }

  lemma ClimbStarts(heap: Heap, rank: map<Ptr, nat>, p: Ptr)
    requires Linked(heap) && Ranked(heap, rank) && p in heap
    ensures Climbed(heap, rank, p, [], p) && p != 0 && p in rank
  {
    assert PathOf(heap, rank, p) + Names(heap, []) == PathOf(heap, rank, p);
  }

  /** The do-while loops of path_cmp2, into an array of 32 pointers. */
  method Collect(heap: Heap, ghost rank: map<Ptr, nat>, p: Ptr, ps: array<Ptr>) returns (n: nat)
    requires Linked(heap) && Ranked(heap, rank) && p in heap && ps.Length == 32
    requires |PathOf(heap, rank, p)| <= 32
    requires forall q :: q in heap && heap[q].up.ParentKey? ==> heap[q].up.key == 0
    modifies ps
    ensures n == |PathOf(heap, rank, p)| && n <= ps.Length
    ensures forall k :: 0 <= k < n ==> ps[k] in heap && heap[ps[k]].name.bytes == PathOf(heap, rank, p)[n - 1 - k]
  {
    hide Linked, Ranked, Climbed, PathOf;
    n := 0;
    var a: Ptr := p;
    ClimbStarts(heap, rank, p);
    while a != 0
      invariant 0 <= n <= |PathOf(heap, rank, p)| && Climbed(heap, rank, p, ps[..n], a)
      invariant a != 0 ==> a in heap && a in rank
      decreases if a == 0 then 0 else rank[a] + 1
    {
      ghost var before := ps[..n];
      ClimbMore(heap, rank, p, ps[..n], a);
      ps[n] := a;
      assert ps[..n + 1] == before + [a];
      n := n + 1;
      a := if heap[a].up.Parent? then heap[a].up.ptr else 0;
    }
    ClimbEnds(heap, rank, p, ps[..n]);
  }

  lemma ClimbEnds(heap: Heap, rank: map<Ptr, nat>, p: Ptr, s: seq<Ptr>)
    requires Climbed(heap, rank, p, s, 0)
    ensures Linked(heap) && Ranked(heap, rank) && |PathOf(heap, rank, p)| == |s|
    ensures forall k :: 0 <= k < |s| ==> s[k] in heap && heap[s[k]].name.bytes == PathOf(heap, rank, p)[|s| - 1 - k]
  {
    assert [] + Names(heap, s) == Names(heap, s);
    forall k | 0 <= k < |s|
      ensures heap[s[k]].name.bytes == Names(heap, s)[|s| - 1 - k]
    {
    }
  }

  /** path_cmp2 has the sign of the path order, for entries at most 32 levels deep. */
  method PathCmp2(heap: Heap, ghost rank: map<Ptr, nat>, pa: Ptr, pb: Ptr) returns (r: int)
    requires Linked(heap) && Ranked(heap, rank) && NoNul(heap) && pa in heap && pb in heap
    requires |PathOf(heap, rank, pa)| <= 32 && |PathOf(heap, rank, pb)| <= 32
    requires forall q :: q in heap && heap[q].up.ParentKey? ==> heap[q].up.key == 0
    ensures Sign(r, PathsOrder(PathOf(heap, rank, pa), PathOf(heap, rank, pb)))
    ensures r < 0 <==> PathBefore(PathOf(heap, rank, pa), PathOf(heap, rank, pb))
    ensures r > 0 <==> PathBefore(PathOf(heap, rank, pb), PathOf(heap, rank, pa))
    ensures r == 0 <==> PathOf(heap, rank, pa) == PathOf(heap, rank, pb)
  {
    hide Linked, Ranked, PathOf, NameOrder, PathsOrder, NoNul, NameBefore, PathBefore;
    var xs, ys := new Ptr[32], new Ptr[32];
    var m := Collect(heap, rank, pa, xs);
    var n := Collect(heap, rank, pb, ys);
    ghost var p, q := PathOf(heap, rank, pa), PathOf(heap, rank, pb);
    var i, j := m - 1, n - 1;
    FromTop(p, q);
    while i >= 0 && j >= 0
      invariant -1 <= i < m && -1 <= j < n && m - i == n - j
      invariant PathsOrder(p, q) == PathsOrder(p[m - 1 - i..], q[n - 1 - j..])
      decreases i + 1
      modifies {}
    {
      NotNull(heap, xs[i]);
      NotNull(heap, ys[j]);
      var ret := FileNameCmp(heap, xs[i], ys[j]);
      Compare(p, q, m - 1 - i);
      if ret != 0 {
        PathsCompared(ret, p, q);
        return ret;
      }
      i, j := i - 1, j - 1;
    }
    OneEnds(p[m - 1 - i..], q[n - 1 - j..]);
    PathsCompared(i - j, p, q);
    return i - j;
  }

  lemma NotNull(heap: Heap, p: Ptr)
    requires Linked(heap) && p in heap
    ensures p != 0
  {
  }

  lemma FromTop(p: seq<NameBytes>, q: seq<NameBytes>)
    ensures p[0..] == p && q[0..] == q
  {
  }

  lemma Compare(p: seq<NameBytes>, q: seq<NameBytes>, k: nat)
    requires k < |p| && k < |q|
    ensures PathsOrder(p[k..], q[k..]) ==
            if NameOrder(p[k], q[k]) != 0 then NameOrder(p[k], q[k]) else PathsOrder(p[k + 1..], q[k + 1..])
  {
    hide NameOrder;
    assert p[k..][1..] == p[k + 1..] && q[k..][1..] == q[k + 1..];
  }

  lemma OneEnds(p: seq<NameBytes>, q: seq<NameBytes>)
    requires p == [] || q == []
    ensures Sign(|p| - |q|, PathsOrder(p, q))
  {
  }

  // ---------- what it says about entries ----------

  lemma {:induction false} PathBelow(heap: Heap, rank: map<Ptr, nat>, d: Ptr, a: Ptr)
    requires Linked(heap) && Ranked(heap, rank) && d in heap && a in heap && Under(heap, d, a)
    ensures PathOf(heap, rank, a) <= PathOf(heap, rank, d)
    ensures d != a ==> |PathOf(heap, rank, a)| < |PathOf(heap, rank, d)|
    decreases rank[d]
  {
    hide Under;
    FNotNull(heap, a);
    UnderUnfolds(heap, d, a);
    if d != a {
      AttachedParent(heap, rank, d);
      PathBelow(heap, rank, heap[d].up.ptr, a);
    }
  }

  /** Every ancestor stands before its descendants. */
  lemma AncestorsFirst(heap: Heap, rank: map<Ptr, nat>, d: Ptr, a: Ptr)
    requires Linked(heap) && Ranked(heap, rank) && d in heap && a in heap && Under(heap, d, a) && d != a
    ensures PathsOrder(PathOf(heap, rank, a), PathOf(heap, rank, d)) < 0
  {
    hide Under, Linked, Ranked;
    PathBelow(heap, rank, d, a);
    var x, y := PathOf(heap, rank, a), PathOf(heap, rank, d);
    assert y == x + y[|x|..];
    LongerIsLater(x, y[|x|..]);
  }
}
