/** What the readers leave before build_dir runs: one unattached entry for each record, listed in the
    order of the records, and the map of the directories among them. */
module LoadedList {
  import opened BuildDir
  import opened FileTree
  import opened IndexStore
  import opened TreeRecords

  /** DirMaps after the listed entries were added in turn. */
  function MapOf(heap: Heap, list: seq<Ptr>): map<Key, Ptr> {
    if list == [] then map[]
    else
      var p, m := list[|list| - 1], MapOf(heap, list[..|list| - 1]);
      if p in heap && heap[p].dir then m[heap[p].frn := p] else m
  }

  /** Exactly the listed entries are in memory, one for each record. */
  ghost predicate Loaded(heap: Heap, list: seq<Ptr>, dirMap: map<Key, Ptr>, rs: seq<Rec>) {
    && Match(heap, list, rs) && Distinct(list) && 0 !in list
    && (forall p :: p in heap <==> p in list)
    && dirMap == MapOf(heap, list)
  }

  lemma {:induction false} MapOfFinds(heap: Heap, list: seq<Ptr>, i: int)
    requires 0 <= i < |list| && (forall k :: 0 <= k < |list| ==> list[k] in heap) && heap[list[i]].dir
    requires forall j, k :: 0 <= j < k < |list| ==> heap[list[j]].frn != heap[list[k]].frn
    ensures heap[list[i]].frn in MapOf(heap, list) && MapOf(heap, list)[heap[list[i]].frn] == list[i]
  {
    if i < |list| - 1 {
      MapOfFinds(heap, list[..|list| - 1], i);
    }
  }

  function Members(list: seq<Ptr>): set<Ptr> {
    set p | p in list
  }

  lemma HeapSize(heap: Heap, list: seq<Ptr>)
    requires Distinct(list) && forall p :: p in heap <==> p in list
    ensures |heap| == |list|
  {
    assert heap.Keys == Members(list);
    assert |heap| == |heap.Keys|;
    DistinctSize(list);
  }

  lemma {:induction false} DistinctSize(list: seq<Ptr>)
    requires Distinct(list)
    ensures |Members(list)| == |list|
  {
    if list != [] {
      FirstMember(list);
      hide Members, Distinct;
      DistinctSize(list[1..]);
    }
  }

  lemma FirstMember(list: seq<Ptr>)
    requires Distinct(list) && list != []
    ensures Distinct(list[1..]) && list[0] !in Members(list[1..]) && Members(list) == Members(list[1..]) + {list[0]}
  {
    assert list == [list[0]] + list[1..];
  }

  /** The ids of the listed entries differ as those of the records do. */
  lemma ListIds(heap: Heap, list: seq<Ptr>, rs: seq<Rec>)
    requires Match(heap, list, rs) && DistinctIds(rs)
    ensures forall j, k :: 0 <= j < k < |list| ==> heap[list[j]].frn != heap[list[k]].frn
  {
    forall j, k | 0 <= j < k < |list|
      ensures heap[list[j]].frn != heap[list[k]].frn
    {
      assert rs[j].frn != rs[k].frn;
    }
  }

  lemma {:induction false} MapOfKept(heap: Heap, after: Heap, list: seq<Ptr>)
    requires forall p :: p in list ==> p in heap && p in after && after[p] == heap[p]
    ensures MapOf(after, list) == MapOf(heap, list)
  {
    if list != [] {
      assert list[|list| - 1] in list;
      MapOfKept(heap, after, list[..|list| - 1]);
    }
  }

  /** One more entry read. */
  lemma LoadedMore(heap: Heap, list: seq<Ptr>, dirMap: map<Key, Ptr>, rs: seq<Rec>, p: Ptr, r: Rec)
    requires Loaded(heap, list, dirMap, rs) && p !in heap && p != 0
    ensures |list| == |rs|
    ensures Loaded(heap[p := EntryOf(r)], list + [p], if r.dir then dirMap[r.frn := p] else dirMap, rs + [r])
  {
    var after := heap[p := EntryOf(r)];
    MapOfKept(heap, after, list);
    assert (list + [p])[..|list|] == list;
    forall i, j | 0 <= i < j < |list + [p]|
      ensures (list + [p])[i] != (list + [p])[j]
    {
      if j == |list| {
        assert list[i] in list;
      }
    }
  }

  lemma NothingLoaded()
    ensures Loaded(map[], [], map[], [])
  {
  }

  // ---------- such a list can be attached ----------

  lemma {:induction false} MapOfIn(heap: Heap, list: seq<Ptr>)
    requires forall p :: p in list ==> p in heap
    ensures MapIn(heap, MapOf(heap, list))
  {
    if list != [] {
      assert list[|list| - 1] in list;
      MapOfIn(heap, list[..|list| - 1]);
    }
  }

  lemma LoadedIsListed(heap: Heap, list: seq<Ptr>, dirMap: map<Key, Ptr>, rs: seq<Rec>)
    requires Loaded(heap, list, dirMap, rs)
    ensures Listed(heap, dirMap, list) && |heap| == |list| == |rs|
  {
    HeapSize(heap, list);
    MapOfIn(heap, list);
    forall p | p in heap
      ensures heap[p].up.ParentKey? && heap[p].children == []
    {
      var i :| 0 <= i < |list| && list[i] == p;
      assert heap[list[i]] == EntryOf(rs[i]);
    }
  }

  ghost predicate GoodIds(rs: seq<Rec>) {
    DistinctIds(rs) && forall r :: r in rs ==> r.frn != 0
  }

  /** The ids in memory are unique and not 0 exactly when those of the records are. */
  lemma LoadedIds(heap: Heap, list: seq<Ptr>, dirMap: map<Key, Ptr>, rs: seq<Rec>)
    requires Loaded(heap, list, dirMap, rs)
    ensures UniqueIds(heap) <==> GoodIds(rs)
  {
    if UniqueIds(heap) {
      forall i, j | 0 <= i < j < |rs|
        ensures rs[i].frn != rs[j].frn
      {
        assert heap[list[i]] == EntryOf(rs[i]) && heap[list[j]] == EntryOf(rs[j]) && list[i] != list[j];
      }
      forall r | r in rs
        ensures r.frn != 0
      {
        var i :| 0 <= i < |rs| && rs[i] == r;
        assert heap[list[i]] == EntryOf(rs[i]);
      }
    }
    if GoodIds(rs) {
      ListIds(heap, list, rs);
      forall p | p in heap
        ensures exists i :: 0 <= i < |list| && list[i] == p && heap[p] == EntryOf(rs[i]) && heap[p].frn != 0
      {
        var i :| 0 <= i < |list| && list[i] == p;
        assert rs[i] in rs;
      }
    }
  }

  /** Then the map finds every directory. */
  lemma LoadedMap(heap: Heap, list: seq<Ptr>, dirMap: map<Key, Ptr>, rs: seq<Rec>)
    requires Loaded(heap, list, dirMap, rs) && DistinctIds(rs)
    ensures MapOk(heap, dirMap)
  {
    ListIds(heap, list, rs);
    forall p | p in heap && heap[p].dir
      ensures heap[p].frn in dirMap && dirMap[heap[p].frn] == p
    {
      var i :| 0 <= i < |list| && list[i] == p;
      MapOfFinds(heap, list, i);
    }
  }

  /** A record whose directory stands before it gives an entry whose directory stands before it. */
  lemma LoadedIsPlaced(heap: Heap, list: seq<Ptr>, dirMap: map<Key, Ptr>, rs: seq<Rec>, root: Ptr, i: int)
    requires Loaded(heap, list, dirMap, rs) && DistinctIds(rs) && AfterParent(rs, i) && list[i] != root
    ensures ParentOf(heap, dirMap, root, list[i]) in list[..i]
  {
    ListIds(heap, list, rs);
    var j :| 0 <= j < i && rs[j].frn == rs[i].parent && rs[j].dir;
    assert heap[list[j]] == EntryOf(rs[j]) && heap[list[i]] == EntryOf(rs[i]);
    MapOfFinds(heap, list, j);
    assert list[..i][j] == list[j];
  }

  /** Records in preorder are such that build_dir makes a tree of them. */
  lemma PreorderBuilds(heap: Heap, list: seq<Ptr>, dirMap: map<Key, Ptr>, rs: seq<Rec>)
    requires Loaded(heap, list, dirMap, rs) && GoodIds(rs) && rs != []
    requires forall i :: 0 < i < |rs| ==> AfterParent(rs, i)
    ensures list != [] && ParentsBefore(heap, dirMap, list[0], list) && Buildable(heap, dirMap, list[0], |rs|)
  {
    LoadedIsListed(heap, list, dirMap, rs);
    LoadedIds(heap, list, dirMap, rs);
    forall i | 0 <= i < |list| && list[i] != list[0]
      ensures ParentOf(heap, dirMap, list[0], list[i]) in list[..i]
    {
      LoadedIsPlaced(heap, list, dirMap, rs, list[0], i);
    }
    hide Loaded, Listed, GoodIds, ParentOf, UniqueIds;
    ListedFirst(heap, dirMap, list);
    var order := PreorderIsOrdered(heap, dirMap, list[0], list);
  }

  lemma ListedFirst(heap: Heap, dirMap: map<Key, Ptr>, list: seq<Ptr>)
    requires Listed(heap, dirMap, list) && list != []
    ensures list[0] in heap
  {
    assert list[0] in list;
  }
}
