/** The edits of filesearch/fs_common2.cpp as functions from heap to heap, with what every step of them
    keeps; and the invariant of the index. */
module FileEdits {
  import opened FileTree

  lemma {:induction false} FreshExists(s: set<Ptr>) returns (p: Ptr)
    ensures p != 0 && forall q :: q in s ==> q < p
  {
    if s == {} {
      p := 1;
    } else {
      var x :| x in s;
      p := FreshExists(s - {x});
      if p <= x {
        p := x + 1;
      }
      assert forall q :: q in s ==> q == x || q in s - {x};
    }
  }

  /** pFileEntry_eq: the same id; or, for an entry without one, a name that begins with its name. */
  predicate Like(e: Entry, c: Entry) {
    if e.frn != 0 then c.frn == e.frn else e.name.bytes <= c.name.bytes
  }

  /** The first child that e is taken for. */
  function FirstLike(heap: Heap, s: seq<Ptr>, e: Entry): (k: nat)
    requires forall c :: c in s ==> c in heap
    ensures k <= |s| && (k < |s| ==> Like(e, heap[s[k]]))
    ensures forall i :: 0 <= i < k ==> !Like(e, heap[s[i]])
  {
    if s == [] || Like(e, heap[s[0]]) then 0
    else
      assert forall c :: c in s[1..] ==> c in s;
      1 + FirstLike(heap, s[1..], e)
  }

  /** The heap after the first child of `parent` that `file` is taken for is erased. */
  function Erased(heap: Heap, parent: Ptr, file: Ptr): Heap
    requires file in heap && parent in heap && forall c :: c in heap[parent].children ==> c in heap
  {
    var s := heap[parent].children;
    var k := FirstLike(heap, s, heap[file]);
    if k < |s| then heap[parent := heap[parent].(children := s[..k] + s[k + 1..])] else heap
  }

  /** Ids being unique, erasing by id is removing the entry itself. */
  lemma EraseIsRemove(heap: Heap, s: seq<Ptr>, f: Ptr)
    requires UniqueIds(heap) && f in s && forall c :: c in s ==> c in heap
    ensures heap[f].frn != 0
    ensures var k := FirstLike(heap, s, heap[f]);
            k < |s| && s[k] == f && s[..k] + s[k + 1..] == Remove(s, f)
  {
    EraseFirst(heap, s, f);
  }

  /** An entry without an id is erased itself exactly when no sibling before it has a name that begins with
      its name; */
  lemma EraseByName(heap: Heap, s: seq<Ptr>, f: Ptr, i: nat)
    requires i < |s| && s[i] == f && Distinct(s) && (forall c :: c in s ==> c in heap) && heap[f].frn == 0
    ensures FirstLike(heap, s, heap[f]) < |s|
    ensures s[FirstLike(heap, s, heap[f])] == f <==>
            forall j :: 0 <= j < i ==> !(heap[f].name.bytes <= heap[s[j]].name.bytes)
  {
    assert f in s;
    var k := FirstLike(heap, s, heap[f]);
    if k == i {
      forall j | 0 <= j < i
        ensures !(heap[f].name.bytes <= heap[s[j]].name.bytes)
      {
        assert !Like(heap[f], heap[s[j]]);
      }
    }
  }

  /** of "ab" and "a" in this order, the second cannot be erased: the first goes instead. */
  lemma WrongSiblingErased(heap: Heap, parent: Ptr, ab: Ptr, a: Ptr)
    requires parent in heap && heap[parent].children == [ab, a] && ab in heap && a in heap
    requires heap[a].frn == 0 && heap[ab].name.bytes == [97, 98] && heap[a].name.bytes == [97]
    ensures Erased(heap, parent, a) == heap[parent := heap[parent].(children := [a])]
  {
    var s := heap[parent].children;
    assert heap[a].name.bytes <= heap[ab].name.bytes;
    assert s[0] == ab && FirstLike(heap, s, heap[a]) == 0 && s[..0] + s[1..] == [a];
  }

  lemma EraseFirst(heap: Heap, s: seq<Ptr>, f: Ptr)
    requires f in s && forall c :: c in s ==> c in heap
    requires heap[f].frn != 0 && forall c :: c in s && heap[c].frn == heap[f].frn ==> c == f
    ensures var k := FirstLike(heap, s, heap[f]);
            k < |s| && s[k] == f && s[..k] + s[k + 1..] == Remove(s, f)
  {
    var i :| 0 <= i < |s| && s[i] == f;
    assert Like(heap[f], heap[s[i]]);
    RemoveAt(s, FirstLike(heap, s, heap[f]));
  }

  lemma {:induction false} RemoveAt(s: seq<Ptr>, k: nat)
    requires k < |s| && forall i :: 0 <= i < k ==> s[i] != s[k]
    ensures s[..k] + s[k + 1..] == Remove(s, s[k])
  {
    if k > 0 {
      var t := s[1..];
      RemoveAt(t, k - 1);
      assert s[..k] == [s[0]] + t[..k - 1] && s[k + 1..] == t[k..];
    }
  }

  lemma UniqueIdsKept(heap: Heap, after: Heap)
    requires UniqueIds(heap) && after.Keys <= heap.Keys && forall p :: p in after ==> after[p].frn == heap[p].frn
    ensures UniqueIds(after)
  {
  }

  /** The children of one entry, redirected to another parent. */
  function Redirected(heap: Heap, s: seq<Ptr>, ret: Ptr): Heap
    requires forall c :: c in s ==> c in heap
  {
    map p | p in heap :: if p in s then heap[p].(up := Parent(ret)) else heap[p]
  }

  lemma RedirectMore(heap: Heap, s: seq<Ptr>, k: int, ret: Ptr)
    requires 0 <= k < |s| && forall c :: c in s ==> c in heap
    ensures forall c :: c in s[..k] ==> c in s
    ensures forall c :: c in s[..k + 1] ==> c in s
    ensures var h := Redirected(heap, s[..k], ret);
            Redirected(heap, s[..k + 1], ret) == h[s[k] := h[s[k]].(up := Parent(ret))]
  {
    assert s[..k + 1] == s[..k] + [s[k]];
  }

  lemma ParentOutside(heap: Heap, rank: map<Ptr, nat>, f: Ptr)
    requires Linked(heap) && Ranked(heap, rank) && Attached(heap, f)
    ensures var q := heap[f].up.ptr;
            && q in heap && q != f && q !in heap[f].children && f !in heap[f].children
            && f in heap[q].children && Distinct(heap[q].children)
            && (forall c :: c in heap[f].children ==> c in heap) && (forall c :: c in heap[q].children ==> c in heap)
  {
    AttachedParent(heap, rank, f);
    assert NodeOk(heap, f) && NodeOk(heap, heap[f].up.ptr);
  }

  /** The heap of renameFile before it looks for the old entry in the parent's vector. */
  function Copied(heap: Heap, f: Ptr, ret: Ptr, name: Name): Heap
    requires Attached(heap, f) && heap[f].up.ptr in heap && forall c :: c in heap[f].children ==> c in heap
  {
    Redirected(Link(heap[ret := heap[f].(name := name)], heap[f].up.ptr, ret), heap[f].children, ret)
  }

  /** The erased vector entry is the old entry, and with it freed the heap is the renamed one. */
  lemma RenameSteps(heap: Heap, rank: map<Ptr, nat>, f: Ptr, ret: Ptr, name: Name)
    requires Linked(heap) && Ranked(heap, rank) && UniqueIds(heap) && Attached(heap, f) && ret !in heap && ret != 0
    ensures var q := heap[f].up.ptr;
            && q in heap && q != f && f in heap && (forall c :: c in heap[f].children ==> c in heap)
            && var copied := Copied(heap, f, ret, name);
            && q in copied && f in copied && (forall c :: c in copied[q].children ==> c in copied)
            && Without(Erased(copied, q, f), {f}) == Renamed(heap, f, ret, name)
  {
    ParentOutside(heap, rank, f);
    hide Ranked, Linked, UniqueIds, Erased, Copied, Without, Renamed, Remove;
    CopiedIs(heap, f, ret, name);
    RenameErases(heap, f, ret, name);
    RenameResult(heap, f, ret, name, Erased(Copied(heap, f, ret, name), heap[f].up.ptr, f));
  }

  lemma RenameErases(heap: Heap, f: Ptr, ret: Ptr, name: Name)
    requires UniqueIds(heap) && Attached(heap, f) && heap[f].up.ptr in heap && ret !in heap
    requires forall c :: c in heap[f].children ==> c in heap
    requires var q := heap[f].up.ptr;
             q != f && q !in heap[f].children && f in heap[q].children && Distinct(heap[q].children)
             && f !in heap[f].children && forall c :: c in heap[q].children ==> c in heap
    ensures var q, copied := heap[f].up.ptr, Copied(heap, f, ret, name);
            && q in copied && f in copied && (forall c :: c in copied[q].children ==> c in copied)
            && Erased(copied, q, f) == copied[q := heap[q].(children := Remove(heap[q].children, f) + [ret])]
  {
    hide UniqueIds, Copied, Remove;
    var q, s0, copied := heap[f].up.ptr, heap[heap[f].up.ptr].children, Copied(heap, f, ret, name);
    CopiedIs(heap, f, ret, name);
    EraseIsRemove(heap, s0, f);
    FirstInLonger(heap, copied, s0, ret, heap[f], copied[f]);
    var k := FirstLike(heap, s0, heap[f]);
    assert (s0 + [ret])[..k] + (s0 + [ret])[k + 1..] == s0[..k] + s0[k + 1..] + [ret];
  }

  lemma CopiedIs(heap: Heap, f: Ptr, ret: Ptr, name: Name)
    requires Attached(heap, f) && heap[f].up.ptr in heap && forall c :: c in heap[f].children ==> c in heap
    requires ret !in heap && heap[f].up.ptr !in heap[f].children
    ensures var q, copied := heap[f].up.ptr, Copied(heap, f, ret, name);
            && copied.Keys == heap.Keys + {ret}
            && copied[ret] == heap[f].(name := name)
            && copied[q] == heap[q].(children := heap[q].children + [ret])
            && forall p :: p in heap && p != q ==>
                 copied[p] == if p in heap[f].children then heap[p].(up := Parent(ret)) else heap[p]
  {
  }

  lemma RenameResult(heap: Heap, f: Ptr, ret: Ptr, name: Name, last: Heap)
    requires Linked(heap) && Attached(heap, f) && heap[f].up.ptr in heap && ret !in heap && f != heap[f].up.ptr
    requires var q := heap[f].up.ptr;
             && q !in heap[f].children && f !in heap[f].children && ret !in heap[f].children
             && last.Keys == heap.Keys + {ret}
             && (forall p :: p in heap && p != q ==>
                   last[p] == if p in heap[f].children then heap[p].(up := Parent(ret)) else heap[p])
             && last[ret] == heap[f].(name := name)
             && last[q] == heap[q].(children := Remove(heap[q].children, f) + [ret])
    ensures Without(last, {f}) == Renamed(heap, f, ret, name)
  {
    assert NodeOk(heap, f);
    forall p | p in heap && heap[p].up == Parent(f)
      ensures p in heap[f].children
    {
      assert NodeOk(heap, p);
    }
  }

  lemma {:induction false} FirstInLonger(heap: Heap, after: Heap, s: seq<Ptr>, ret: Ptr, e: Entry, e': Entry)
    requires forall c :: c in s ==> c in heap && c in after && after[c].frn == heap[c].frn
    requires e.frn == e'.frn != 0 && ret in after && FirstLike(heap, s, e) < |s|
    ensures forall c :: c in s + [ret] ==> c in after
    ensures FirstLike(after, s + [ret], e') == FirstLike(heap, s, e)
  {
    if !Like(e, heap[s[0]]) {
      assert (s + [ret])[1..] == s[1..] + [ret];
      FirstInLonger(heap, after, s[1..], ret, e, e');
    }
  }

  /** What holds of the index between any two calls. */
  ghost predicate Sound(heap: Heap, rank: map<Ptr, nat>, root: Ptr, count: int) {
    && Linked(heap) && Ranked(heap, rank) && UniqueIds(heap)
    && root in heap && !Attached(heap, root)
    && count == |heap|
  }

  lemma MoveSound(heap: Heap, rank: map<Ptr, nat>, root: Ptr, count: int, dirMap: map<Key, Ptr>, f: Ptr, pnew: Ptr)
    requires Sound(heap, rank, root, count)
    requires Attached(heap, f) && pnew in heap && heap[pnew].dir && !Under(heap, pnew, f)
    ensures f in heap && heap[f].up.Parent? && heap[f].up.ptr in heap && pnew in rank
    ensures Sound(Moved(heap, f, pnew), MovedRank(heap, rank, f, pnew), root, count)
    ensures MapOk(heap, dirMap) ==> MapOk(Moved(heap, f, pnew), dirMap)
  {
    hide Linked, Under, MovedRank, Moved;
    FNotNull(heap, f);
    UnderUnfolds(heap, f, f);
    AttachedParent(heap, rank, f);
    var after := Moved(heap, f, pnew);
    MovedLinked(heap, rank, f, pnew);
    MovedRanked(heap, rank, f, pnew);
    MovedKeeps(heap, f, pnew);
    SameSize(heap, after);
  }

  lemma SameSize(heap: Heap, after: Heap)
    requires heap.Keys == after.Keys
    ensures |heap| == |after|
  {
    assert |heap| == |heap.Keys|;
    assert |after| == |after.Keys|;
  }

  /** operator[] of the map: an unknown id gives NULL. */
  function Lookup(dirMap: map<Key, Ptr>, frn: Key): Ptr {
    if frn in dirMap then dirMap[frn] else 0
  }

  lemma ChildrenOf(heap: Heap, q: Ptr)
    requires Linked(heap) && q in heap
    ensures q != 0 && 0 !in heap[q].children && (!heap[q].dir ==> heap[q].children == [])
    ensures forall p :: p in heap[q].children <==> p in heap && heap[p].up == Parent(q)
  {
    assert NodeOk(heap, q);
    forall p | p in heap && heap[p].up == Parent(q)
      ensures p in heap[q].children
    {
      assert NodeOk(heap, p);
    }
  }

  lemma EntryAdded(heap: Heap, rank: map<Ptr, nat>, root: Ptr, count: int, dirMap: map<Key, Ptr>, p: Ptr,
                   frn: Key, pfrn: Key, dir: bool, name: Name, attrs: Attrs)
    requires Sound(heap, rank, root, count) && p !in heap && p != 0 && NewId(heap, frn)
    ensures var after := heap[p := Entry(frn, ParentKey(pfrn), [], dir, name, attrs)];
            && Sound(after, rank[p := 0], root, count + 1)
            && (MapOk(heap, dirMap) ==> MapOk(after, if dir then dirMap[frn := p] else dirMap))
  {
    var after := heap[p := Entry(frn, ParentKey(pfrn), [], dir, name, attrs)];
    forall q | q in after
      ensures NodeOk(after, q)
    {
      if q != p {
        assert NodeOk(heap, q);
      }
    }
  }

  ghost predicate NewId(heap: Heap, frn: Key) {
    frn != 0 && forall p :: p in heap ==> heap[p].frn != frn
  }

  /** f can be hung below `parent` without a cycle. */
  ghost predicate CanAttach(heap: Heap, parent: Ptr, f: Ptr) {
    parent in heap && heap[parent].dir && !Under(heap, parent, f)
  }

  lemma LinkKeepsMap(heap: Heap, dirMap: map<Key, Ptr>, parent: Ptr, f: Ptr)
    requires f in heap && parent in heap
    ensures MapOk(heap, dirMap) ==> MapOk(Link(heap, parent, f), dirMap)
  {
  }

  lemma LinkSound(heap: Heap, rank: map<Ptr, nat>, root: Ptr, count: int, parent: Ptr, f: Ptr)
    requires Sound(heap, rank, root, count) && f in heap && heap[f].up.ParentKey? && f != root
    requires CanAttach(heap, parent, f)
    ensures parent in heap && parent in rank
    ensures Sound(Link(heap, parent, f), MovedRank(heap, rank, f, parent), root, count)
  {
    hide Linked, Under;
    FNotNull(heap, f);
    FNotNull(heap, parent);
    UnderUnfolds(heap, f, f);
    UnderUnfolds(heap, parent, f);
    LinkLinked(heap, parent, f);
    var after := Link(heap, parent, f);
    assert after.Keys == heap.Keys;
    SameSize(heap, after);
    UniqueIdsKept(heap, after);
    LinkRanked(heap, rank, parent, f);
  }

  lemma LinkRanked(heap: Heap, rank: map<Ptr, nat>, parent: Ptr, f: Ptr)
    requires Linked(heap) && Ranked(heap, rank) && f in heap && heap[f].up.ParentKey?
    requires parent in heap && parent != f && !Under(heap, parent, f)
    ensures parent in rank && Ranked(Link(heap, parent, f), MovedRank(heap, rank, f, parent))
  {
    hide Under, Linked;
    FNotNull(heap, f);
    UnderUnfolds(heap, f, f);
    var after := Link(heap, parent, f);
    forall p | p in heap
      ensures p in after && after[p].up == if p == f then Parent(parent) else heap[p].up
      ensures Under(heap, p, f) <==> p == f || (Attached(heap, p) && Under(heap, heap[p].up.ptr, f))
    {
      UnderUnfolds(heap, p, f);
    }
  }

  lemma DeleteReady(heap: Heap, rank: map<Ptr, nat>, root: Ptr, count: int, dirMap: map<Key, Ptr>, f: Ptr)
    requires Sound(heap, rank, root, count) && f in heap
    ensures Linked(heap) && Ranked(heap, rank)
    ensures Attached(heap, f) <==> heap[f].up.Parent? && heap[f].up.ptr != 0
    ensures Attached(heap, f) ==>
              var q := heap[f].up.ptr;
              && q in heap && heap[f].frn != 0 && (forall c :: c in heap[q].children ==> c in heap)
              && f in Erased(heap, q, f) && Erased(heap, q, f)[f] == heap[f]
              && Intact(heap, Erased(heap, q, f), Subtree(heap, f))
              && Without(Erased(heap, q, f), Subtree(heap, f)) == Deleted(heap, f)
              && Sound(Deleted(heap, f), rank, root, count - |Subtree(heap, f)|)
              && (MapOk(heap, dirMap) ==> MapOk(Deleted(heap, f), dirMap))
    ensures Intact(heap, heap, Subtree(heap, f))
    ensures MapOk(heap, dirMap) ==> MapOk(Without(heap, Subtree(heap, f)), dirMap)
    ensures !heap[f].dir ==> Subtree(heap, f) == {f}
  {
    if Attached(heap, f) {
      hide Linked, Under, Erased, Deleted, Subtree, MapOk, Ranked, UniqueIds;
      AttachedParent(heap, rank, f);
      EraseFromParent(heap, rank, root, count, f);
      UnlinkIntact(heap, rank, dirMap, f);
      DeletedLinked(heap, rank, f);
      DeletedSound(heap, rank, root, count, f);
    }
    if !heap[f].dir {
      hide Linked, Under, Erased, Deleted, MapOk, Ranked;
      LeafHasNoChildren(heap, f);
      BelowIsSubtree(heap, rank, f);
    }
  }

  /** Freeing a whole tree leaves the links, the ids and the count in order, and nothing exactly if it was the
      only one. */
  lemma TreeDeleted(heap: Heap, rank: map<Ptr, nat>, root: Ptr, count: int, f: Ptr)
    requires Sound(heap, rank, root, count) && f in heap && !Attached(heap, f)
    ensures var after := Without(heap, Subtree(heap, f));
            && Linked(after) && Ranked(after, rank) && UniqueIds(after)
            && count - |Subtree(heap, f)| == |after|
            && (after == map[] <==> OnlyTop(heap, f))
  {
    TreeDeletedLinked(heap, rank, f);
    hide Linked, Under;
    var after := Without(heap, Subtree(heap, f));
    UniqueIdsKept(heap, after);
    assert after.Keys == heap.Keys - Subtree(heap, f) && Subtree(heap, f) <= heap.Keys;
    assert |after| == |after.Keys| && |heap| == |heap.Keys|;
    if OnlyTop(heap, f) {
      forall p | p in heap
        ensures p in Subtree(heap, f)
      {
        OneTree(heap, rank, f, p);
      }
      assert after.Keys == {};
    } else {
      var p :| p in heap && !Attached(heap, p) && p != f;
      FNotNull(heap, f);
      UnderUnfolds(heap, p, f);
      assert p in after;
    }
  }

  lemma SoundIs(heap: Heap, rank: map<Ptr, nat>, root: Ptr, count: int)
    requires Sound(heap, rank, root, count)
    ensures Linked(heap) && Ranked(heap, rank) && UniqueIds(heap) && count == |heap|
  {
  }

  lemma UnlinkIntact(heap: Heap, rank: map<Ptr, nat>, dirMap: map<Key, Ptr>, f: Ptr)
    requires Linked(heap) && Ranked(heap, rank) && Attached(heap, f)
    ensures heap[f].up.ptr in heap
    ensures f in Unlink(heap, f) && Unlink(heap, f)[f] == heap[f] && Intact(heap, Unlink(heap, f), Subtree(heap, f))
    ensures Without(Unlink(heap, f), Subtree(heap, f)) == Deleted(heap, f)
    ensures MapOk(heap, dirMap) ==> MapOk(Deleted(heap, f), dirMap)
  {
    hide Linked, Under;
    AttachedParent(heap, rank, f);
    ParentNotUnder(heap, rank, f);
  }

  lemma ParentNotUnder(heap: Heap, rank: map<Ptr, nat>, f: Ptr)
    requires Linked(heap) && Ranked(heap, rank) && Attached(heap, f)
    ensures heap[f].up.ptr in heap && heap[f].up.ptr !in Subtree(heap, f)
  {
    AttachedParent(heap, rank, f);
    if Under(heap, heap[f].up.ptr, f) {
      UnderRank(heap, rank, heap[f].up.ptr, f);
    }
  }

  lemma DeletedSound(heap: Heap, rank: map<Ptr, nat>, root: Ptr, count: int, f: Ptr)
    requires Sound(heap, rank, root, count) && Attached(heap, f)
    requires heap[f].up.ptr in heap && Linked(Deleted(heap, f)) && Ranked(Deleted(heap, f), rank)
    ensures Sound(Deleted(heap, f), rank, root, count - |Subtree(heap, f)|)
  {
    hide Linked, Under;
    FNotNull(heap, f);
    UnderUnfolds(heap, root, f);
    var after := Deleted(heap, f);
    UniqueIdsKept(heap, after);
    assert after.Keys == heap.Keys - Subtree(heap, f) && Subtree(heap, f) <= heap.Keys;
    assert |after| == |after.Keys| && |heap| == |heap.Keys|;
  }

  /** The part S of the whole tree is still there, untouched. */
  ghost predicate Intact(whole: Heap, heap: Heap, S: set<Ptr>) {
    heap.Keys <= whole.Keys && forall p :: p in S ==> p in heap && heap[p] == whole[p]
  }

  lemma IntactAt(whole: Heap, ranks: map<Ptr, nat>, heap: Heap, f: Ptr)
    requires Linked(whole) && Ranked(whole, ranks) && f in whole && Intact(whole, heap, Subtree(whole, f))
    ensures f in heap && heap[f] == whole[f]
    ensures var n := |whole[f].children|;
            Subtree(whole, f) == Below(whole, f, n) + {f} && |Subtree(whole, f)| == |Below(whole, f, n)| + 1
  {
    BelowIsSubtree(whole, ranks, f);
  }

  lemma WithoutMore(heap: Heap, A: set<Ptr>, B: set<Ptr>)
    ensures Without(Without(heap, A), B) == Without(heap, A + B)
  {
  }

  lemma BelowStarts(whole: Heap, heap: Heap, f: Ptr)
    requires f in whole
    ensures Below(whole, f, 0) == {} && Without(heap, {}) == heap
  {
  }

  lemma LeafHasNoChildren(whole: Heap, f: Ptr)
    requires Linked(whole) && f in whole && !whole[f].dir
    ensures whole[f].children == []
  {
    assert NodeOk(whole, f);
  }

  /** The entries ranked no lower than f. */
  ghost function RankedFrom(whole: Heap, ranks: map<Ptr, nat>, f: Ptr): set<Ptr> {
    set p | p in whole && p in ranks && f in ranks && ranks[f] <= ranks[p]
  }

  lemma RankedFromShrinks(whole: Heap, ranks: map<Ptr, nat>, f: Ptr, c: Ptr)
    requires f in whole && f in ranks && c in ranks && ranks[f] < ranks[c]
    ensures RankedFrom(whole, ranks, c) < RankedFrom(whole, ranks, f)
  {
    assert f in RankedFrom(whole, ranks, f);
  }

  lemma ChildReady(whole: Heap, ranks: map<Ptr, nat>, start: Heap, f: Ptr, k: nat)
    requires Linked(whole) && Ranked(whole, ranks) && f in whole && k < |whole[f].children|
    requires Intact(whole, start, Subtree(whole, f))
    ensures var c := whole[f].children[k];
            && c in whole && RankedFrom(whole, ranks, c) < RankedFrom(whole, ranks, f)
            && Intact(whole, Without(start, Below(whole, f, k)), Subtree(whole, c))
            && |Below(whole, f, k + 1)| == |Below(whole, f, k)| + |Subtree(whole, c)|
            && Without(start, Below(whole, f, k + 1)) == Without(Without(start, Below(whole, f, k)), Subtree(whole, c))
  {
    var c := whole[f].children[k];
    ChildNotNull(whole, f, c);
    RankedFromShrinks(whole, ranks, f, c);
    BelowIsSubtree(whole, ranks, f);
    BelowDisjoint(whole, ranks, f, k);
    WithoutMore(start, Below(whole, f, k), Subtree(whole, c));
    hide Subtree, Linked, RankedFrom;
    forall p | p in Subtree(whole, c)
      ensures p in Subtree(whole, f)
    {
      BelowMembers(whole, f, |whole[f].children|, p);
    }
  }

  lemma RedirectNone(heap: Heap, s: seq<Ptr>, ret: Ptr)
    ensures (forall c :: c in s[..0] ==> c in heap) && Redirected(heap, s[..0], ret) == heap
  {
  }

  lemma RenamedKeeps(heap: Heap, f: Ptr, ret: Ptr, name: Name)
    requires Attached(heap, f) && heap[f].up.ptr in heap && ret !in heap && ret != 0 && f != 0
    ensures var after := Renamed(heap, f, ret, name);
            && after.Keys == heap.Keys - {f} + {ret}
            && after[ret].frn == heap[f].frn && after[ret].dir == heap[f].dir
            && (forall p :: p in heap && p != f ==> after[p].frn == heap[p].frn && after[p].dir == heap[p].dir)
            && (forall p :: p in heap && p != f ==> (Attached(after, p) <==> Attached(heap, p)))
  {
  }

  lemma RenameSound(heap: Heap, rank: map<Ptr, nat>, root: Ptr, count: int, dirMap: map<Key, Ptr>,
                    f: Ptr, ret: Ptr, name: Name)
    requires Sound(heap, rank, root, count) && Attached(heap, f) && ret !in heap && ret != 0
    ensures f in rank && heap[f].up.ptr in heap
    ensures Sound(Renamed(heap, f, ret, name), rank[ret := rank[f]], root, count)
    ensures MapOk(heap, dirMap) ==> (MapOk(Renamed(heap, f, ret, name), dirMap) <==> !heap[f].dir)
  {
    AttachedParent(heap, rank, f);
    RenamedLinked(heap, rank, f, ret, name);
    RenamedKeeps(heap, f, ret, name);
    RenamedIds(heap, f, ret, name);
    RenamedMap(heap, dirMap, f, ret, name);
    hide Linked, Renamed, UniqueIds, MapOk;
  }

  /** The map keeps the freed address of a renamed directory. */
  lemma RenamedMap(heap: Heap, dirMap: map<Key, Ptr>, f: Ptr, ret: Ptr, name: Name)
    requires Attached(heap, f) && heap[f].up.ptr in heap && ret !in heap && ret != 0 && f != 0 && UniqueIds(heap)
    ensures MapOk(heap, dirMap) ==> (MapOk(Renamed(heap, f, ret, name), dirMap) <==> !heap[f].dir)
  {
    RenamedKeeps(heap, f, ret, name);
    hide Renamed;
    assert ret in Renamed(heap, f, ret, name);
  }

  lemma RenamedIds(heap: Heap, f: Ptr, ret: Ptr, name: Name)
    requires UniqueIds(heap) && Attached(heap, f) && heap[f].up.ptr in heap && ret !in heap && ret != 0 && f != 0
    ensures UniqueIds(Renamed(heap, f, ret, name)) && |Renamed(heap, f, ret, name)| == |heap|
  {
    RenamedKeeps(heap, f, ret, name);
    hide Renamed;
    SwapSize(heap, Renamed(heap, f, ret, name), f, ret);
  }

  lemma SwapSize(heap: Heap, after: Heap, f: Ptr, ret: Ptr)
    requires f in heap && ret !in heap && after.Keys == heap.Keys - {f} + {ret}
    ensures |after| == |heap|
  {
    assert |after| == |after.Keys|;
    assert |heap| == |heap.Keys|;
  }

  /** The heaps of the steps of renameFile are as the code needs them, and end in the renamed one. */
  lemma RenameReady(heap: Heap, rank: map<Ptr, nat>, root: Ptr, count: int, f: Ptr, ret: Ptr, name: Name)
    requires Sound(heap, rank, root, count) && Attached(heap, f) && ret !in heap && ret != 0
    ensures f in rank && f in heap && heap[f].frn != 0 && heap[f].up.Parent? && heap[f].up.ptr in heap
    ensures forall c :: c in heap[f].children ==> c in heap
    ensures var q, start := heap[f].up.ptr, heap[ret := heap[f].(name := name)];
            && q != f && f in Link(start, q, ret) && Link(start, q, ret)[f] == heap[f]
            && forall c :: c in heap[f].children ==> c in Link(start, q, ret)
    ensures var q, copied := heap[f].up.ptr, Copied(heap, f, ret, name);
            && copied == Redirected(Link(heap[ret := heap[f].(name := name)], q, ret), heap[f].children, ret)
            && q in copied && f in copied && q != f && copied[f] == heap[f]
            && (forall c :: c in copied[q].children ==> c in copied)
            && Without(Erased(copied, q, f), {f}) == Renamed(heap, f, ret, name)
  {
    ParentOutside(heap, rank, f);
    RenameSteps(heap, rank, f, ret, name);
    CopiedIs(heap, f, ret, name);
    hide Linked, Erased, Copied, Without, Renamed, UniqueIds;
  }

  lemma EraseFromParent(heap: Heap, rank: map<Ptr, nat>, root: Ptr, count: int, f: Ptr)
    requires Sound(heap, rank, root, count) && Attached(heap, f)
    ensures var q := heap[f].up.ptr;
            && q in heap && (forall c :: c in heap[q].children ==> c in heap) && heap[f].frn != 0
            && Erased(heap, q, f) == Unlink(heap, f)
  {
    ParentOutside(heap, rank, f);
    EraseIsRemove(heap, heap[heap[f].up.ptr].children, f);
  }

  /** The parent's pointer is written twice in a row: once directly, once by addChildren. */
  lemma LinkOverwrites(heap: Heap, f: Ptr, pnew: Ptr)
    requires Attached(heap, f) && heap[f].up.ptr in heap && pnew in heap
    ensures f in Unlink(heap, f) && pnew in Unlink(heap, f)
    ensures var h := Unlink(heap, f); Link(h[f := h[f].(up := Parent(pnew))], pnew, f) == Moved(heap, f, pnew)
  {
  }
}
