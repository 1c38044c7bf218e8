/** build_dir of filesearch/fs_common2.cpp: a list of loaded entries, in any order, becomes a tree. */
module BuildDir {
  import opened FileEdits
  import opened FileIndex
  import opened FileTree

  // ---------- the list ----------

  /** The map holds directories, each under its own id. */
  ghost predicate MapIn(heap: Heap, dirMap: map<Key, Ptr>) {
    forall k :: k in dirMap ==> dirMap[k] in heap && heap[dirMap[k]].dir && heap[dirMap[k]].frn == k
  }

  /** Memory holds just the listed entries, none of them attached yet. */
  ghost predicate Listed(heap: Heap, dirMap: map<Key, Ptr>, list: seq<Ptr>) {
    && Distinct(list) && 0 !in heap && MapIn(heap, dirMap)
    && (forall p :: p in heap <==> p in list)
    && (forall p :: p in heap ==> heap[p].up.ParentKey? && heap[p].children == [])
  }

  /** What findDir says of an entry's parent id: NULL for the root, which attachParent leaves alone. */
  function ParentOf(heap: Heap, dirMap: map<Key, Ptr>, root: Ptr, p: Ptr): Ptr {
    if p in heap && p != root && heap[p].up.ParentKey? then Lookup(dirMap, heap[p].up.key) else 0
  }

  /** The entries of the list whose directory is p, in order. */
  function KidsAt(heap: Heap, dirMap: map<Key, Ptr>, root: Ptr, list: seq<Ptr>, p: Ptr): seq<Ptr> {
    if list == [] then []
    else
      var e := list[|list| - 1];
      KidsAt(heap, dirMap, root, list[..|list| - 1], p)
      + if p != 0 && ParentOf(heap, dirMap, root, e) == p then [e] else []
  }

  lemma {:induction false} KidsAtMembers(heap: Heap, dirMap: map<Key, Ptr>, root: Ptr, list: seq<Ptr>, p: Ptr)
    ensures forall e :: e in KidsAt(heap, dirMap, root, list, p) <==>
              e in list && p != 0 && ParentOf(heap, dirMap, root, e) == p
    ensures Distinct(list) ==> Distinct(KidsAt(heap, dirMap, root, list, p))
  {
    hide ParentOf;
    if list != [] {
      var init, last := list[..|list| - 1], list[|list| - 1];
      assert list == init + [last];
      KidsAtMembers(heap, dirMap, root, init, p);
    }
  }

  // ---------- what build_dir makes of it ----------

  /** An entry after the first k entries of the list were attached. */
  ghost function BuiltEntry(start: Heap, list: seq<Ptr>, k: int, root: Ptr, dirMap: map<Key, Ptr>, p: Ptr): Entry
    requires p in start && 0 <= k <= |list|
  {
    var parent := ParentOf(start, dirMap, root, p);
    start[p].(children := KidsAt(start, dirMap, root, list[..k], p),
              up := if p in list[..k] && parent != 0 then Parent(parent) else start[p].up)
  }

  ghost predicate BuiltUpTo(start: Heap, list: seq<Ptr>, k: int, root: Ptr, dirMap: map<Key, Ptr>, heap: Heap)
    requires 0 <= k <= |list|
  {
    heap.Keys == start.Keys && forall p :: p in start ==> heap[p] == BuiltEntry(start, list, k, root, dirMap, p)
  }

  lemma BuildStarts(start: Heap, list: seq<Ptr>, root: Ptr, dirMap: map<Key, Ptr>)
    requires Listed(start, dirMap, list)
    ensures BuiltUpTo(start, list, 0, root, dirMap, start)
  {
  }

  lemma ListPrefix(list: seq<Ptr>, k: int)
    requires 0 <= k < |list|
    ensures list[..k + 1] == list[..k] + [list[k]] && list[..k + 1][..k] == list[..k]
    ensures Distinct(list) ==> list[k] !in list[..k]
  {
  }

  /** Attaching one entry, seen at one other entry p. */
  lemma BuildStepAt(start: Heap, list: seq<Ptr>, k: int, root: Ptr, dirMap: map<Key, Ptr>, p: Ptr)
    requires 0 <= k < |list| && p in start && list[k] in start
    ensures var e, fe := BuiltEntry(start, list, k, root, dirMap, p), list[k];
            var parent := ParentOf(start, dirMap, root, fe);
            BuiltEntry(start, list, k + 1, root, dirMap, p) ==
            e.(children := if p != 0 && parent == p then e.children + [fe] else e.children,
               up := if p == fe && parent != 0 then Parent(parent) else e.up)
  {
    hide ParentOf;
    ListPrefix(list, k);
  }

  /** The entry that is attached next is as it was read but for its children, and its directory is there. */
  lemma NextEntry(start: Heap, list: seq<Ptr>, k: int, root: Ptr, dirMap: map<Key, Ptr>, heap: Heap)
    requires 0 <= k < |list| && Listed(start, dirMap, list) && BuiltUpTo(start, list, k, root, dirMap, heap)
    ensures var fe, parent := list[k], ParentOf(start, dirMap, root, list[k]);
            && fe in start && fe in heap && heap[fe].up == start[fe].up && heap[fe].up.ParentKey?
            && parent == (if fe == root then 0 else Lookup(dirMap, heap[fe].up.key))
            && (fe != root ==> Lookup(dirMap, heap[fe].up.key) == 0 || Lookup(dirMap, heap[fe].up.key) in heap)
  {
    assert list[k] in list;
    ListPrefix(list, k);
    hide KidsAt;
  }

  lemma LinkAt(heap: Heap, parent: Ptr, fe: Ptr, p: Ptr)
    requires fe in heap && parent in heap && p in heap
    ensures Link(heap, parent, fe).Keys == heap.Keys
    ensures Link(heap, parent, fe)[p] ==
            heap[p].(children := if p == parent then heap[p].children + [fe] else heap[p].children,
                     up := if p == fe then Parent(parent) else heap[p].up)
  {
  }

  lemma BuiltAt(start: Heap, list: seq<Ptr>, k: int, root: Ptr, dirMap: map<Key, Ptr>, heap: Heap, p: Ptr)
    requires 0 <= k <= |list| && BuiltUpTo(start, list, k, root, dirMap, heap) && p in start
    ensures heap.Keys == start.Keys && heap[p] == BuiltEntry(start, list, k, root, dirMap, p)
  {
  }

  lemma BuildStepOne(start: Heap, list: seq<Ptr>, k: int, root: Ptr, dirMap: map<Key, Ptr>, heap: Heap, p: Ptr)
    requires 0 <= k < |list| && BuiltUpTo(start, list, k, root, dirMap, heap) && p in start && p != 0
    requires list[k] in start && list[k] in heap
    requires var parent := ParentOf(start, dirMap, root, list[k]); parent != 0 ==> parent in heap
    ensures var fe, parent := list[k], ParentOf(start, dirMap, root, list[k]);
            var after := if parent == 0 then heap else Link(heap, parent, fe);
            p in after && BuiltEntry(start, list, k + 1, root, dirMap, p) == after[p]
  {
    hide *;
    var fe, parent := list[k], ParentOf(start, dirMap, root, list[k]);
    BuiltAt(start, list, k, root, dirMap, heap, p);
    BuildStepAt(start, list, k, root, dirMap, p);
    if parent != 0 {
      LinkAt(heap, parent, fe, p);
    }
  }

  /** One turn of the loop: exactly one more entry joins the vector of its directory, if that is known. */
  lemma BuildStep(start: Heap, list: seq<Ptr>, k: int, root: Ptr, dirMap: map<Key, Ptr>, heap: Heap)
    requires 0 <= k < |list| && Listed(start, dirMap, list) && BuiltUpTo(start, list, k, root, dirMap, heap)
    ensures var fe, parent := list[k], ParentOf(start, dirMap, root, list[k]);
            && fe in heap && (parent != 0 ==> parent in heap)
            && BuiltUpTo(start, list, k + 1, root, dirMap, if parent == 0 then heap else Link(heap, parent, fe))
  {
    hide *;
    NextEntry(start, list, k, root, dirMap, heap);
    NoNull(start, dirMap, list);
    var fe, parent := list[k], ParentOf(start, dirMap, root, list[k]);
    var after := if parent == 0 then heap else Link(heap, parent, fe);
    BuiltAt(start, list, k, root, dirMap, heap, fe);
    if parent != 0 {
      LinkAt(heap, parent, fe, fe);
    }
    forall p | p in start
      ensures p in after && BuiltEntry(start, list, k + 1, root, dirMap, p) == after[p]
    {
      BuildStepOne(start, list, k, root, dirMap, heap, p);
    }
    BuiltFrom(start, list, k + 1, root, dirMap, after);
  }

  lemma BuiltFrom(start: Heap, list: seq<Ptr>, k: int, root: Ptr, dirMap: map<Key, Ptr>, heap: Heap)
    requires 0 <= k <= |list| && heap.Keys == start.Keys
    requires forall p :: p in start ==> BuiltEntry(start, list, k, root, dirMap, p) == heap[p]
    ensures BuiltUpTo(start, list, k, root, dirMap, heap)
  {
    hide BuiltEntry;
  }

  lemma NoNull(start: Heap, dirMap: map<Key, Ptr>, list: seq<Ptr>)
    requires Listed(start, dirMap, list)
    ensures 0 !in start && forall p :: p in start ==> start[p].up.ParentKey? && p in list
  {
  }

  // ---------- when the result is a tree ----------

  /** The entries can be ranked so that each comes after its directory: parent ids make no cycle. */
  ghost predicate Ordered(start: Heap, dirMap: map<Key, Ptr>, root: Ptr, order: map<Ptr, nat>) {
    forall p :: p in start ==>
      && p in order
      && var parent := ParentOf(start, dirMap, root, p);
         parent != 0 ==> parent in order && order[parent] < order[p]
  }

  /** Ids are unique and not 0, the root and the count are right, and parent ids make no cycle. */
  ghost predicate Buildable(start: Heap, dirMap: map<Key, Ptr>, root: Ptr, count: int) {
    UniqueIds(start) && root in start && count == |start| && exists order :: Ordered(start, dirMap, root, order)
  }

  /** The entry p of the result, with its directory and its vector. */
  lemma BuiltIs(start: Heap, list: seq<Ptr>, root: Ptr, dirMap: map<Key, Ptr>, heap: Heap, p: Ptr)
    requires Listed(start, dirMap, list) && BuiltUpTo(start, list, |list|, root, dirMap, heap) && p in start
    ensures heap.Keys == start.Keys
    ensures var parent := ParentOf(start, dirMap, root, p);
            && heap[p].up == (if parent == 0 then start[p].up else Parent(parent)) && start[p].up.ParentKey?
            && heap[p] == start[p].(children := KidsAt(start, dirMap, root, list, p), up := heap[p].up)
            && (parent != 0 ==> parent in heap && start[parent].dir)
  {
    assert list[..|list|] == list;
    NoNull(start, dirMap, list);
    BuiltAt(start, list, |list|, root, dirMap, heap, p);
    hide KidsAt;
  }

  lemma BuiltLinked(start: Heap, list: seq<Ptr>, root: Ptr, dirMap: map<Key, Ptr>, heap: Heap)
    requires Listed(start, dirMap, list) && BuiltUpTo(start, list, |list|, root, dirMap, heap)
    ensures Linked(heap)
    ensures forall p :: p in start ==>
              var parent := ParentOf(start, dirMap, root, p);
              && (FileTree.Attached(heap, p) <==> parent != 0) && (parent != 0 ==> heap[p].up == Parent(parent))
  {
    NoNull(start, dirMap, list);
    ListedDistinct(start, dirMap, list);
    hide KidsAt, BuiltUpTo, Listed, ParentOf;
    forall p | p in start
      ensures heap.Keys == start.Keys && NodeOk(heap, p)
      ensures var parent := ParentOf(start, dirMap, root, p);
              && (FileTree.Attached(heap, p) <==> parent != 0) && (parent != 0 ==> heap[p].up == Parent(parent))
    {
      BuiltNodeOk(start, list, root, dirMap, heap, p);
    }
  }

  lemma ListedDistinct(start: Heap, dirMap: map<Key, Ptr>, list: seq<Ptr>)
    requires Listed(start, dirMap, list)
    ensures Distinct(list) && forall p :: p in list ==> p in start
  {
  }

  lemma ListedMap(heap: Heap, dirMap: map<Key, Ptr>, list: seq<Ptr>)
    requires Listed(heap, dirMap, list)
    ensures MapIn(heap, dirMap)
  {
  }

  lemma BuiltNodeOk(start: Heap, list: seq<Ptr>, root: Ptr, dirMap: map<Key, Ptr>, heap: Heap, p: Ptr)
    requires Listed(start, dirMap, list) && BuiltUpTo(start, list, |list|, root, dirMap, heap) && p in start
    ensures heap.Keys == start.Keys && NodeOk(heap, p)
    ensures var parent := ParentOf(start, dirMap, root, p);
            && (FileTree.Attached(heap, p) <==> parent != 0) && (parent != 0 ==> heap[p].up == Parent(parent))
  {
    hide KidsAt, BuiltUpTo, Listed, ParentOf;
    BuiltUpward(start, list, root, dirMap, heap, p);
    BuiltDownward(start, list, root, dirMap, heap, p);
  }

  lemma BuiltUpward(start: Heap, list: seq<Ptr>, root: Ptr, dirMap: map<Key, Ptr>, heap: Heap, p: Ptr)
    requires Listed(start, dirMap, list) && BuiltUpTo(start, list, |list|, root, dirMap, heap) && p in start
    ensures heap.Keys == start.Keys
    ensures var parent := ParentOf(start, dirMap, root, p);
            && (FileTree.Attached(heap, p) <==> parent != 0)
            && (parent != 0 ==>
                  parent in heap && heap[p].up == Parent(parent) && heap[parent].dir && p in heap[parent].children)
  {
    NoNull(start, dirMap, list);
    hide KidsAt, BuiltUpTo, Listed, ParentOf;
    BuiltIs(start, list, root, dirMap, heap, p);
    var parent := ParentOf(start, dirMap, root, p);
    if parent != 0 {
      BuiltIs(start, list, root, dirMap, heap, parent);
      KidsAtMembers(start, dirMap, root, list, parent);
    }
  }

  lemma BuiltDownward(start: Heap, list: seq<Ptr>, root: Ptr, dirMap: map<Key, Ptr>, heap: Heap, p: Ptr)
    requires Listed(start, dirMap, list) && BuiltUpTo(start, list, |list|, root, dirMap, heap) && p in start
    ensures heap.Keys == start.Keys && Distinct(heap[p].children) && (!heap[p].dir ==> heap[p].children == [])
    ensures forall c :: c in heap[p].children ==> c in heap && heap[c].up == Parent(p)
  {
    NoNull(start, dirMap, list);
    ListedDistinct(start, dirMap, list);
    hide *;
    BuiltIs(start, list, root, dirMap, heap, p);
    KidsAtMembers(start, dirMap, root, list, p);
    forall c | c in heap[p].children
      ensures c in heap && heap[c].up == Parent(p) && start[p].dir
    {
      BuiltIs(start, list, root, dirMap, heap, c);
    }
    if heap[p].children != [] {
      assert heap[p].children[0] in heap[p].children;
    }
  }

  /** The invariant holds of the result, under a rank, exactly when the list could be ordered so. */
  lemma BuiltSound(start: Heap, list: seq<Ptr>, root: Ptr, dirMap: map<Key, Ptr>, heap: Heap, rank: map<Ptr, nat>,
                   count: int)
    requires Listed(start, dirMap, list) && BuiltUpTo(start, list, |list|, root, dirMap, heap)
    ensures Sound(heap, rank, root, count) <==>
            UniqueIds(start) && root in start && count == |start| && Ordered(start, dirMap, root, rank)
    ensures MapOk(start, dirMap) ==> MapOk(heap, dirMap)
  {
    BuiltLinked(start, list, root, dirMap, heap);
    RootStays(start, dirMap, root);
    hide Linked, Listed, ParentOf, KidsAt, BuiltUpTo, UniqueIds, MapOk, Ranked, Ordered;
    BuiltKeeps(start, list, root, dirMap, heap);
    SameSize(start, heap);
    BuiltRanked(start, dirMap, root, heap, rank);
  }

  lemma BuiltRanked(start: Heap, dirMap: map<Key, Ptr>, root: Ptr, heap: Heap, rank: map<Ptr, nat>)
    requires heap.Keys == start.Keys
    requires forall p :: p in start ==>
               var parent := ParentOf(start, dirMap, root, p);
               && (FileTree.Attached(heap, p) <==> parent != 0) && (parent != 0 ==> heap[p].up == Parent(parent))
    ensures Ranked(heap, rank) <==> Ordered(start, dirMap, root, rank)
  {
    hide ParentOf;
  }

  lemma BuiltKeeps(start: Heap, list: seq<Ptr>, root: Ptr, dirMap: map<Key, Ptr>, heap: Heap)
    requires Listed(start, dirMap, list) && BuiltUpTo(start, list, |list|, root, dirMap, heap)
    ensures heap.Keys == start.Keys && (UniqueIds(heap) <==> UniqueIds(start))
    ensures MapOk(heap, dirMap) <==> MapOk(start, dirMap)
  {
    hide Listed, ParentOf, KidsAt;
    assert forall p :: p in start ==> heap[p].frn == start[p].frn && heap[p].dir == start[p].dir;
  }

  lemma RootStays(start: Heap, dirMap: map<Key, Ptr>, root: Ptr)
    ensures ParentOf(start, dirMap, root, root) == 0
  {
  }

  /** build_dir, for a list in any order: every entry whose directory the map knows is attached, each
      directory's vector holds its entries in list order, and the others stay as they were read. The
      result satisfies the invariant exactly when ids are unique and parent ids make no cycle. */
  method Build(ix: Index)
    requires Listed(ix.heap, ix.dirMap, ix.tmpList)
    modifies ix
    ensures ix.tmpList == [] && ix.root == old(ix.root) && ix.dirMap == old(ix.dirMap)
    ensures ix.allFileCount == old(ix.allFileCount)
    ensures BuiltUpTo(old(ix.heap), old(ix.tmpList), |old(ix.tmpList)|, ix.root, ix.dirMap, ix.heap)
    ensures Linked(ix.heap) && (MapOk(old(ix.heap), ix.dirMap) ==> MapOk(ix.heap, ix.dirMap))
    ensures Sound(ix.heap, ix.rank, ix.root, ix.allFileCount)
            <==> Buildable(old(ix.heap), ix.dirMap, ix.root, ix.allFileCount)
  {
    hide *;
    ghost var start := ix.heap;
    var k := 0;
    BuildStarts(ix.heap, ix.tmpList, ix.root, ix.dirMap);
    while k < |ix.tmpList|
      invariant ix.tmpList == old(ix.tmpList) && ix.root == old(ix.root) && ix.dirMap == old(ix.dirMap)
      invariant ix.allFileCount == old(ix.allFileCount) && 0 <= k <= |ix.tmpList|
      invariant BuiltUpTo(start, ix.tmpList, k, ix.root, ix.dirMap, ix.heap)
    {
      var fe := ix.tmpList[k];
      NextEntry(start, ix.tmpList, k, ix.root, ix.dirMap, ix.heap);
      BuildStep(start, ix.tmpList, k, ix.root, ix.dirMap, ix.heap);
      FindDirIs(ix, ix.heap[fe].up.key);
      var attached := ix.AttachParent(fe);
      k := k + 1;
    }
    if order :| Ordered(start, ix.dirMap, ix.root, order) {
      ix.rank := order;
    }
    BuiltLinked(start, ix.tmpList, ix.root, ix.dirMap, ix.heap);
    BuiltSound(start, ix.tmpList, ix.root, ix.dirMap, ix.heap, ix.rank, ix.allFileCount);
    BuildableIs(start, ix.dirMap, ix.root, ix.allFileCount);
    ix.tmpList := [];
  }

  lemma BuildableIs(start: Heap, dirMap: map<Key, Ptr>, root: Ptr, count: int)
    ensures Buildable(start, dirMap, root, count) <==>
            UniqueIds(start) && root in start && count == |start| && exists order :: Ordered(start, dirMap, root, order)
  {
  }

  lemma FindDirIs(ix: Index, frn: Key)
    ensures ix.FindDir(frn) == Lookup(ix.dirMap, frn)
  {
  }

  // ---------- unique ids ----------

  /** The entries of the list that name `id` as their parent, in order. */
  function KidsOf(heap: Heap, list: seq<Ptr>, id: Key): seq<Ptr> {
    if list == [] then []
    else
      var p := list[|list| - 1];
      KidsOf(heap, list[..|list| - 1], id) + if p in heap && heap[p].up == ParentKey(id) then [p] else []
  }

  /** With unique ids, and a map that finds every directory, a directory gets the entries that name it,
      and nothing else gets any: whoever names an unknown id or a file stays unattached. */
  lemma {:induction false} NamedKids(heap: Heap, dirMap: map<Key, Ptr>, root: Ptr, list: seq<Ptr>, p: Ptr)
    requires UniqueIds(heap) && MapIn(heap, dirMap) && MapOk(heap, dirMap) && p in heap && p != 0
    requires root in heap ==> heap[root].up == ParentKey(0)
    requires forall e :: e in list ==> e in heap
    ensures KidsAt(heap, dirMap, root, list, p) == if heap[p].dir then KidsOf(heap, list, heap[p].frn) else []
  {
    if list != [] {
      var init, e := list[..|list| - 1], list[|list| - 1];
      assert forall q :: q in init ==> q in list;
      assert e in list;
      NamedKids(heap, dirMap, root, init, p);
    }
  }

  // ---------- lists in preorder ----------

  function IndexIn(list: seq<Ptr>, p: Ptr): (i: nat)
    ensures i <= |list| && (p in list ==> i < |list| && list[i] == p)
  {
    if list == [] || list[0] == p then 0 else 1 + IndexIn(list[1..], p)
  }

  /** Every entry but the root has a directory that stands before it. */
  ghost predicate ParentsBefore(heap: Heap, dirMap: map<Key, Ptr>, root: Ptr, list: seq<Ptr>) {
    forall i :: 0 <= i < |list| && list[i] != root ==> ParentOf(heap, dirMap, root, list[i]) in list[..i]
  }

  /** Such a list makes no cycle: its own order is a rank. */
  lemma PreorderIsOrdered(heap: Heap, dirMap: map<Key, Ptr>, root: Ptr, list: seq<Ptr>) returns (order: map<Ptr, nat>)
    requires Listed(heap, dirMap, list) && ParentsBefore(heap, dirMap, root, list)
    ensures Ordered(heap, dirMap, root, order)
  {
    order := map p | p in heap :: IndexIn(list, p);
    forall p | p in heap && ParentOf(heap, dirMap, root, p) != 0
      ensures var parent := ParentOf(heap, dirMap, root, p); parent in order && order[parent] < order[p]
    {
      PlaceBefore(list, IndexIn(list, p), ParentOf(heap, dirMap, root, p));
    }
  }

  lemma PlaceBefore(list: seq<Ptr>, i: nat, q: Ptr)
    requires Distinct(list) && i < |list| && q in list[..i]
    ensures q in list && IndexIn(list, q) < i
  {
    var j :| 0 <= j < i && list[..i][j] == q;
    assert list[j] == q && list[IndexIn(list, q)] == q;
  }
}
