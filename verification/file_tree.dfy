/** The shape of the in-memory file index of filesearch/fs_common2.cpp: entries at addresses,
    each with the union `up` (the parent's id until the entry is attached, its address after)
    and a vector of children. Everything here is about heaps as values. */
module FileTree {
  import opened Chars

  type Ptr = nat    // an address; 0 is NULL
  type Key = nat    // FileReferenceNumber

  datatype Up = ParentKey(key: Key) | Parent(ptr: Ptr)

  /** FileName with FileNameLength bytes, and StrLen, its length in characters. */
  datatype Name = Name(bytes: seq<byte>, strLen: byte)

  /** The flag bits and bytes of `us` and `ut` that the tree does not depend on. */
  datatype Attrs = Attrs(readonly: bool, hidden: bool, system: bool, size1: byte, size2: byte,
                         time1: byte, time2: byte, time3: byte, suffixType: byte)

  datatype Entry = Entry(frn: Key, up: Up, children: seq<Ptr>, dir: bool, name: Name, attrs: Attrs)

  type Heap = map<Ptr, Entry>

  predicate Distinct(s: seq<Ptr>) {
    forall i, j :: 0 <= i < j < |s| ==> s[i] != s[j]
  }

  /** p hangs below another entry. */
  predicate Attached(heap: Heap, p: Ptr) {
    p in heap && heap[p].up.Parent? && heap[p].up.ptr != 0
  }

  /** Parent and child links of p agree with those of its neighbours. */
  ghost predicate NodeOk(heap: Heap, p: Ptr)
    requires p in heap
  {
    && (Attached(heap, p) ==>
          var q := heap[p].up.ptr; q in heap && heap[q].dir && p in heap[q].children)
    && Distinct(heap[p].children)
    && (!heap[p].dir ==> heap[p].children == [])
    && forall c :: c in heap[p].children ==> c in heap && heap[c].up == Parent(p)
  }

  ghost predicate Linked(heap: Heap) {
    0 !in heap && forall p :: p in heap ==> NodeOk(heap, p)
  }

  /** A witness that the parent links have no cycle. */
  ghost predicate Ranked(heap: Heap, rank: map<Ptr, nat>) {
    forall p :: p in heap ==>
      p in rank && (Attached(heap, p) ==> heap[p].up.ptr in rank && rank[heap[p].up.ptr] < rank[p])
  }

  ghost predicate UniqueIds(heap: Heap) {
    (forall p :: p in heap ==> heap[p].frn != 0)
    && forall p, q :: p in heap && q in heap && heap[p].frn == heap[q].frn ==> p == q
  }

  /** The id-to-directory map finds every live directory. It may also hold dead ids. */
  ghost predicate MapOk(heap: Heap, dirMap: map<Key, Ptr>) {
    forall p :: p in heap && heap[p].dir ==> heap[p].frn in dirMap && dirMap[heap[p].frn] == p
  }

  // ---------- subtrees ----------

  /** The n-th ancestor of p, or 0. */
  function Climb(heap: Heap, p: Ptr, n: nat): Ptr
    decreases n
  {
    if n == 0 then p else if Attached(heap, p) then Climb(heap, heap[p].up.ptr, n - 1) else 0
  }

  ghost predicate Under(heap: Heap, p: Ptr, f: Ptr) {
    exists n: nat :: Climb(heap, p, n) == f
  }

  lemma UnderUnfolds(heap: Heap, p: Ptr, f: Ptr)
    requires f != 0
    ensures Under(heap, p, f) <==> p == f || (Attached(heap, p) && Under(heap, heap[p].up.ptr, f))
  {
    assert Climb(heap, p, 0) == p;
    if p != f && Attached(heap, p) {
      if n: nat :| Climb(heap, p, n) == f {
        assert Climb(heap, heap[p].up.ptr, n - 1) == f;
      }
      if n: nat :| Climb(heap, heap[p].up.ptr, n) == f {
        assert Climb(heap, p, n + 1) == f;
      }
    }
  }

  ghost function Subtree(heap: Heap, f: Ptr): set<Ptr> {
    set p | p in heap && Under(heap, p, f)
  }

  // ---------- one parent's vector ----------

  function Remove(s: seq<Ptr>, x: Ptr): seq<Ptr> {
    if s == [] then [] else if s[0] == x then s[1..] else [s[0]] + Remove(s[1..], x)
  }

  lemma {:induction false} RemoveMembers(s: seq<Ptr>, x: Ptr)
    requires Distinct(s)
    ensures Distinct(Remove(s, x))
    ensures forall y :: y in Remove(s, x) <==> y in s && y != x
  {
    if s != [] {
      assert s == [s[0]] + s[1..];
      RemoveMembers(s[1..], x);
      assert s[0] !in s[1..];
      if s[0] != x {
        assert s[0] !in Remove(s[1..], x);
      }
    }
  }

  /** The entry without itself in its parent's vector. */
  function Unlink(heap: Heap, f: Ptr): Heap
    requires Attached(heap, f) && heap[f].up.ptr in heap
  {
    var q := heap[f].up.ptr;
    heap[q := heap[q].(children := Remove(heap[q].children, f))]
  }

  /** addChildren. */
  function Link(heap: Heap, parent: Ptr, f: Ptr): Heap
    requires f in heap && parent in heap
  {
    var h := heap[f := heap[f].(up := Parent(parent))];
    h[parent := h[parent].(children := h[parent].children + [f])]
  }

  // ---------- attaching ----------

  lemma LinkLinked(heap: Heap, parent: Ptr, f: Ptr)
    requires Linked(heap) && f in heap && parent in heap && heap[parent].dir && parent != f
    requires heap[f].up.ParentKey?
    ensures Linked(Link(heap, parent, f))
  {
    var after := Link(heap, parent, f);
    forall p | p in after
      ensures NodeOk(after, p)
    {
      assert NodeOk(heap, p);
    }
  }

  // ---------- moving ----------

  /** f taken out of the tree, with its own subtree still below it. */
  function Detach(heap: Heap, f: Ptr): Heap
    requires Attached(heap, f) && heap[f].up.ptr in heap
  {
    var h := Unlink(heap, f);
    h[f := h[f].(up := ParentKey(0))]
  }

  lemma AttachedParent(heap: Heap, rank: map<Ptr, nat>, f: Ptr)
    requires Linked(heap) && Ranked(heap, rank) && Attached(heap, f)
    ensures var q := heap[f].up.ptr; q in heap && q != f && heap[q].dir && f in heap[q].children
    ensures Distinct(heap[heap[f].up.ptr].children)
  {
    assert NodeOk(heap, f);
    assert NodeOk(heap, heap[f].up.ptr);
  }

  lemma DetachLinked(heap: Heap, rank: map<Ptr, nat>, f: Ptr)
    requires Linked(heap) && Ranked(heap, rank) && Attached(heap, f)
    ensures heap[f].up.ptr in heap && Linked(Detach(heap, f)) && Ranked(Detach(heap, f), rank)
  {
    AttachedParent(heap, rank, f);
    var q, after := heap[f].up.ptr, Detach(heap, f);
    RemoveMembers(heap[q].children, f);
    forall p | p in after
      ensures NodeOk(after, p)
    {
      assert NodeOk(heap, p);
    }
  }

  /** moveFile. */
  function Moved(heap: Heap, f: Ptr, pnew: Ptr): Heap
    requires Attached(heap, f) && heap[f].up.ptr in heap && pnew in heap
  {
    Link(Unlink(heap, f), pnew, f)
  }

  /** Ranks after a move: everything below f goes below pnew. */
  ghost function MovedRank(heap: Heap, rank: map<Ptr, nat>, f: Ptr, pnew: Ptr): map<Ptr, nat>
    requires pnew in rank
  {
    map p | p in rank :: if Under(heap, p, f) then rank[p] + rank[pnew] + 1 else rank[p]
  }

  lemma MovedLinked(heap: Heap, rank: map<Ptr, nat>, f: Ptr, pnew: Ptr)
    requires Linked(heap) && Ranked(heap, rank) && Attached(heap, f)
    requires pnew in heap && heap[pnew].dir && pnew != f
    ensures heap[f].up.ptr in heap && Linked(Moved(heap, f, pnew))
  {
    hide Linked, Ranked;
    DetachLinked(heap, rank, f);
    AttachedParent(heap, rank, f);
    LinkLinked(Detach(heap, f), pnew, f);
    assert Moved(heap, f, pnew) == Link(Detach(heap, f), pnew, f);
  }

  lemma MovedRanked(heap: Heap, rank: map<Ptr, nat>, f: Ptr, pnew: Ptr)
    requires Linked(heap) && Ranked(heap, rank) && Attached(heap, f)
    requires pnew in heap && !Under(heap, pnew, f)
    ensures heap[f].up.ptr in heap && Ranked(Moved(heap, f, pnew), MovedRank(heap, rank, f, pnew))
  {
    AttachedParent(heap, rank, f);
    hide Under, Linked;
    var after := Moved(heap, f, pnew);
    FNotNull(heap, f);
    UnderUnfolds(heap, f, f);
    forall p | p in heap
      ensures p in after && after[p].up == if p == f then Parent(pnew) else heap[p].up
    {
      UnderUnfolds(heap, p, f);
    }
    forall p | p in heap
      ensures Under(heap, p, f) <==> p == f || (Attached(heap, p) && Under(heap, heap[p].up.ptr, f))
    {
      UnderUnfolds(heap, p, f);
    }
  }

  lemma FNotNull(heap: Heap, f: Ptr)
    requires Linked(heap) && f in heap
    ensures f != 0
  {
  }

  /** What a move leaves alone: addresses, ids, kinds, names and attributes. */
  lemma MovedKeeps(heap: Heap, f: Ptr, pnew: Ptr)
    requires Attached(heap, f) && heap[f].up.ptr in heap && pnew in heap
    ensures Moved(heap, f, pnew).Keys == heap.Keys
    ensures forall p :: p in heap ==>
              var e := Moved(heap, f, pnew)[p];
              && e.frn == heap[p].frn && e.dir == heap[p].dir && e.name == heap[p].name && e.attrs == heap[p].attrs
              && e.up == if p == f then Parent(pnew) else heap[p].up
  {
  }

  // ---------- renaming: a fresh entry takes the old one's place ----------

  function Renamed(heap: Heap, f: Ptr, ret: Ptr, name: Name): Heap
    requires Attached(heap, f) && heap[f].up.ptr in heap
  {
    var q := heap[f].up.ptr;
    map p | p in heap.Keys - {f} + {ret} ::
      if p == ret then heap[f].(name := name)
      else if p == q then heap[p].(children := Remove(heap[p].children, f) + [ret])
      else if heap[p].up == Parent(f) then heap[p].(up := Parent(ret))
      else heap[p]
  }

  lemma RenamedLinked(heap: Heap, rank: map<Ptr, nat>, f: Ptr, ret: Ptr, name: Name)
    requires Linked(heap) && Ranked(heap, rank) && Attached(heap, f) && ret !in heap && ret != 0
    ensures heap[f].up.ptr in heap && Linked(Renamed(heap, f, ret, name))
    ensures Ranked(Renamed(heap, f, ret, name), rank[ret := rank[f]])
  {
    AttachedParent(heap, rank, f);
    var q, after := heap[f].up.ptr, Renamed(heap, f, ret, name);
    RemoveMembers(heap[q].children, f);
    assert heap[q].up != Parent(f);
    forall p | p in after
      ensures NodeOk(after, p)
    {
      RenamedNodeOk(heap, rank, f, ret, name, p);
    }
  }

  lemma RenamedNodeOk(heap: Heap, rank: map<Ptr, nat>, f: Ptr, ret: Ptr, name: Name, p: Ptr)
    requires Linked(heap) && Ranked(heap, rank) && Attached(heap, f) && ret !in heap && ret != 0
    requires heap[f].up.ptr in heap && p in Renamed(heap, f, ret, name)
    ensures NodeOk(Renamed(heap, f, ret, name), p)
  {
    AttachedParent(heap, rank, f);
    assert NodeOk(heap, if p == ret then f else p);
    RemoveMembers(heap[heap[f].up.ptr].children, f);
    RenamedChildrenOk(heap, f, ret, name, p);
    RenamedUpOk(heap, f, ret, name, p);
  }

  lemma RenamedChildrenOk(heap: Heap, f: Ptr, ret: Ptr, name: Name, p: Ptr)
    requires Linked(heap) && Attached(heap, f) && ret !in heap && ret != 0
    requires var q := heap[f].up.ptr; q in heap && q != f && heap[q].up != Parent(f) && Distinct(heap[q].children)
    requires p in Renamed(heap, f, ret, name)
    ensures forall c :: c in Renamed(heap, f, ret, name)[p].children ==>
              c in Renamed(heap, f, ret, name) && Renamed(heap, f, ret, name)[c].up == Parent(p)
  {
    assert NodeOk(heap, if p == ret then f else p) && NodeOk(heap, f);
    RemoveMembers(heap[heap[f].up.ptr].children, f);
  }

  lemma RenamedUpOk(heap: Heap, f: Ptr, ret: Ptr, name: Name, p: Ptr)
    requires Linked(heap) && Attached(heap, f) && ret !in heap && ret != 0
    requires var q := heap[f].up.ptr;
             q in heap && q != f && heap[q].dir && heap[q].up != Parent(f) && Distinct(heap[q].children)
    requires p in Renamed(heap, f, ret, name)
    ensures var after := Renamed(heap, f, ret, name);
            Attached(after, p) ==>
              var parent := after[p].up.ptr;
              parent in after && after[parent].dir && p in after[parent].children
  {
    assert NodeOk(heap, if p == ret then f else p) && NodeOk(heap, f);
    RemoveMembers(heap[heap[f].up.ptr].children, f);
  }

  // ---------- deleting ----------

  lemma {:induction false} UnderRank(heap: Heap, rank: map<Ptr, nat>, p: Ptr, f: Ptr)
    requires Linked(heap) && Ranked(heap, rank) && p in heap && f in heap && Under(heap, p, f)
    ensures p == f || rank[f] < rank[p]
    decreases rank[p]
  {
    hide Under;
    FNotNull(heap, f);
    UnderUnfolds(heap, p, f);
    if p != f {
      AttachedParent(heap, rank, p);
      UnderRank(heap, rank, heap[p].up.ptr, f);
    }
  }

  /** Whatever hangs below f, other than f, hangs below exactly one of its children. */
  lemma {:induction false} UnderSomeChild(heap: Heap, rank: map<Ptr, nat>, p: Ptr, f: Ptr) returns (c: Ptr)
    requires Linked(heap) && Ranked(heap, rank) && p in heap && f in heap && Under(heap, p, f) && p != f
    ensures c in heap[f].children && Under(heap, p, c)
    decreases rank[p]
  {
    hide Under;
    FNotNull(heap, f);
    FNotNull(heap, p);
    UnderUnfolds(heap, p, f);
    AttachedParent(heap, rank, p);
    var q := heap[p].up.ptr;
    if q == f {
      c := p;
      UnderUnfolds(heap, p, p);
    } else {
      c := UnderSomeChild(heap, rank, q, f);
      ChildNotNull(heap, f, c);
      UnderUnfolds(heap, p, c);
    }
  }

  lemma ChildNotNull(heap: Heap, f: Ptr, c: Ptr)
    requires Linked(heap) && f in heap && c in heap[f].children
    ensures c in heap && c != 0 && f != 0 && heap[c].up == Parent(f)
  {
    assert NodeOk(heap, f);
  }

  lemma {:induction false} SiblingsDisjoint(heap: Heap, rank: map<Ptr, nat>, f: Ptr, c: Ptr, d: Ptr, p: Ptr)
    requires Linked(heap) && Ranked(heap, rank) && p in heap && f in heap
    requires c in heap[f].children && d in heap[f].children && c != d
    ensures !(Under(heap, p, c) && Under(heap, p, d))
    decreases if p in rank then rank[p] else 0
  {
    hide Under;
    ChildNotNull(heap, f, c);
    ChildNotNull(heap, f, d);
    UnderUnfolds(heap, p, c);
    UnderUnfolds(heap, p, d);
    if Under(heap, p, c) && Under(heap, p, d) {
      if p == c || p == d {
        UnderRank(heap, rank, f, if p == c then d else c);
      } else {
        AttachedParent(heap, rank, p);
        SiblingsDisjoint(heap, rank, f, c, d, heap[p].up.ptr);
      }
    }
  }

  /** The subtrees of the first n children of f. */
  ghost function Below(heap: Heap, f: Ptr, n: nat): set<Ptr>
    requires f in heap && n <= |heap[f].children|
  {
    if n == 0 then {} else Below(heap, f, n - 1) + Subtree(heap, heap[f].children[n - 1])
  }

  lemma {:induction false} BelowMembers(heap: Heap, f: Ptr, n: nat, p: Ptr)
    requires f in heap && n <= |heap[f].children|
    ensures p in Below(heap, f, n) <==> exists k :: 0 <= k < n && p in Subtree(heap, heap[f].children[k])
  {
    hide Subtree;
    if n > 0 {
      BelowMembers(heap, f, n - 1, p);
    }
  }

  lemma BelowIsSubtree(heap: Heap, rank: map<Ptr, nat>, f: Ptr)
    requires Linked(heap) && Ranked(heap, rank) && f in heap
    ensures Subtree(heap, f) == Below(heap, f, |heap[f].children|) + {f}
    ensures f !in Below(heap, f, |heap[f].children|)
  {
    hide *;
    forall p
      ensures p in Subtree(heap, f) <==> p == f || p in Below(heap, f, |heap[f].children|)
      ensures p == f ==> p !in Below(heap, f, |heap[f].children|)
    {
      BelowIsUnder(heap, rank, f, p);
    }
  }

  lemma BelowIsUnder(heap: Heap, rank: map<Ptr, nat>, f: Ptr, p: Ptr)
    requires Linked(heap) && Ranked(heap, rank) && f in heap
    ensures p in Subtree(heap, f) <==> p == f || p in Below(heap, f, |heap[f].children|)
    ensures p == f ==> p !in Below(heap, f, |heap[f].children|)
  {
    hide Under, Below, Linked, Ranked;
    var n := |heap[f].children|;
    FNotNull(heap, f);
    UnderUnfolds(heap, f, f);
    BelowMembers(heap, f, n, p);
    if p in Below(heap, f, n) {
      var k :| 0 <= k < n && p in Subtree(heap, heap[f].children[k]);
      UnderChildIsUnder(heap, rank, f, heap[f].children[k], p);
      NotUnderChild(heap, rank, f, heap[f].children[k]);
    }
    if p in Subtree(heap, f) && p != f {
      var c := UnderSomeChild(heap, rank, p, f);
      var k :| 0 <= k < n && heap[f].children[k] == c;
      assert p in Subtree(heap, heap[f].children[k]);
    }
  }

  lemma NotUnderChild(heap: Heap, rank: map<Ptr, nat>, f: Ptr, c: Ptr)
    requires Linked(heap) && Ranked(heap, rank) && f in heap && c in heap[f].children
    ensures f !in Subtree(heap, c)
  {
    hide Under;
    ChildNotNull(heap, f, c);
    if f in Subtree(heap, c) {
      UnderRank(heap, rank, f, c);
    }
  }

  lemma {:induction false} UnderChildIsUnder(heap: Heap, rank: map<Ptr, nat>, f: Ptr, c: Ptr, p: Ptr)
    requires Linked(heap) && Ranked(heap, rank) && p in heap && f in heap && c in heap[f].children && Under(heap, p, c)
    ensures Under(heap, p, f)
    decreases rank[p]
  {
    hide Under;
    ChildNotNull(heap, f, c);
    UnderUnfolds(heap, p, c);
    UnderUnfolds(heap, p, f);
    UnderUnfolds(heap, f, f);
    if p != c {
      AttachedParent(heap, rank, p);
      UnderChildIsUnder(heap, rank, f, c, heap[p].up.ptr);
    }
  }

  /** The next child's subtree is disjoint from the earlier ones. */
  lemma BelowDisjoint(heap: Heap, rank: map<Ptr, nat>, f: Ptr, n: nat)
    requires Linked(heap) && Ranked(heap, rank) && f in heap && n < |heap[f].children|
    ensures Below(heap, f, n) * Subtree(heap, heap[f].children[n]) == {}
  {
    hide Under;
    var c := heap[f].children[n];
    assert NodeOk(heap, f);
    forall p | p in Below(heap, f, n)
      ensures p !in Subtree(heap, c)
    {
      BelowMembers(heap, f, n, p);
      var k :| 0 <= k < n && p in Subtree(heap, heap[f].children[k]);
      SiblingsDisjoint(heap, rank, f, heap[f].children[k], c, p);
    }
  }

  function Without(heap: Heap, D: set<Ptr>): Heap {
    map p | p in heap && p !in D :: heap[p]
  }

  /** deleteFile: f leaves its parent's vector, and its whole subtree is freed. */
  ghost function Deleted(heap: Heap, f: Ptr): Heap
    requires Attached(heap, f) && heap[f].up.ptr in heap
  {
    Without(Unlink(heap, f), Subtree(heap, f))
  }

  /** What hangs directly below the subtree belongs to it. */
  lemma SubtreeClosed(heap: Heap, rank: map<Ptr, nat>, f: Ptr)
    requires Linked(heap) && Ranked(heap, rank) && f in heap
    ensures forall p :: p in heap ==>
              (p in Subtree(heap, f) <==> p == f || (Attached(heap, p) && heap[p].up.ptr in Subtree(heap, f)))
  {
    hide Under;
    FNotNull(heap, f);
    forall p | p in heap
      ensures p in Subtree(heap, f) <==> p == f || (Attached(heap, p) && heap[p].up.ptr in Subtree(heap, f))
    {
      UnderUnfolds(heap, p, f);
      if Attached(heap, p) {
        AttachedParent(heap, rank, p);
      }
    }
  }

  lemma DeletedLinked(heap: Heap, rank: map<Ptr, nat>, f: Ptr)
    requires Linked(heap) && Ranked(heap, rank) && Attached(heap, f)
    ensures heap[f].up.ptr in heap && Linked(Deleted(heap, f)) && Ranked(Deleted(heap, f), rank)
  {
    hide Under;
    AttachedParent(heap, rank, f);
    FNotNull(heap, f);
    var q, after := heap[f].up.ptr, Deleted(heap, f);
    RemoveMembers(heap[q].children, f);
    SubtreeClosed(heap, rank, f);
    hide Subtree;
    forall p | p in after
      ensures NodeOk(after, p)
    {
      DeletedNodeOk(heap, f, p);
    }
  }

  lemma DeletedNodeOk(heap: Heap, f: Ptr, p: Ptr)
    requires Linked(heap) && Attached(heap, f) && heap[f].up.ptr in heap && heap[f].up.ptr != f
    requires p in Deleted(heap, f)
    requires forall p :: p in heap ==>
      (p in Subtree(heap, f) <==> p == f || (Attached(heap, p) && heap[p].up.ptr in Subtree(heap, f)))
    ensures NodeOk(Deleted(heap, f), p)
  {
    hide Subtree;
    var q, after := heap[f].up.ptr, Deleted(heap, f);
    assert NodeOk(heap, p) && NodeOk(heap, q);
    RemoveMembers(heap[q].children, f);
    forall c | c in after[p].children
      ensures c in after && after[c].up == Parent(p)
    {
      assert c in heap[p].children;
    }
    if Attached(after, p) {
      assert NodeOk(heap, heap[p].up.ptr);
    }
  }

  /** Freeing a whole tree, from an entry without a parent, leaves the other trees as they were. */
  lemma TreeDeletedLinked(heap: Heap, rank: map<Ptr, nat>, f: Ptr)
    requires Linked(heap) && Ranked(heap, rank) && f in heap && !Attached(heap, f)
    ensures var after := Without(heap, Subtree(heap, f)); Linked(after) && Ranked(after, rank)
  {
    SubtreeClosed(heap, rank, f);
    hide Subtree;
    var after := Without(heap, Subtree(heap, f));
    forall p | p in after
      ensures NodeOk(after, p)
    {
      assert NodeOk(heap, p);
      forall c | c in heap[p].children
        ensures c in after
      {
        assert c in heap && heap[c].up == Parent(p) && p != 0;
      }
    }
  }

  /** No entry but f is without a parent. */
  ghost predicate OnlyTop(heap: Heap, f: Ptr) {
    forall p :: p in heap && !Attached(heap, p) ==> p == f
  }

  /** Then everything hangs below f. */
  lemma {:induction false} OneTree(heap: Heap, rank: map<Ptr, nat>, f: Ptr, p: Ptr)
    requires Linked(heap) && Ranked(heap, rank) && f in heap && p in heap
    requires OnlyTop(heap, f)
    ensures p in Subtree(heap, f)
    decreases if p in rank then rank[p] else 0
  {
    SubtreeClosed(heap, rank, f);
    hide Subtree;
    if p != f {
      AttachedParent(heap, rank, p);
      OneTree(heap, rank, f, heap[p].up.ptr);
    }
  }
}
