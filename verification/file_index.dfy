/** The mutable file index of one drive: filesearch/fs_common2.cpp, attachParent and findFile of
    filesearch/fs_common.c, and the journal steps of filesearch/ntfs.c. Memory is a map from
    addresses to entries, so an entry that was freed is simply absent, and an address kept
    anywhere after that dangles. */
module FileIndex {
  import opened FileEdits
  import opened FileTree

  class Index {
    var heap: Heap
    var dirMap: map<Key, Ptr>      // DirMaps[i]
    var tmpList: seq<Ptr>          // tmpList[i]
    var root: Ptr                  // g_rootVols[i]
    var allFileCount: int          // ALL_FILE_COUNT
    ghost var rank: map<Ptr, nat>

    /** NEW0: some address not in use. */
    method Alloc() returns (p: Ptr)
      ensures p != 0 && p !in heap
    {
      ghost var q := FreshExists(heap.Keys);
      assert q !in heap;
      p :| p != 0 && p !in heap;
    }

    function FindDir(frn: Key): Ptr
      reads this`dirMap
    {
      Lookup(dirMap, frn)
    }

    method AddChildren(parent: Ptr, file: Ptr)
      requires file in heap && parent in heap
      modifies this`heap
      ensures heap == Link(old(heap), parent, file)
    {
      heap := heap[file := heap[file].(up := Parent(parent))];
      heap := heap[parent := heap[parent].(children := heap[parent].children + [file])];
    }

    method Add2Map(file: Ptr)
      requires file in heap
      modifies this`tmpList, this`dirMap
      ensures tmpList == old(tmpList) + [file]
      ensures dirMap == if heap[file].dir then old(dirMap)[heap[file].frn := file] else old(dirMap)
    {
      tmpList := tmpList + [file];
      if heap[file].dir {
        dirMap := dirMap[heap[file].frn := file];
      }
    }

    /** delete_file_from_parent_vector. */
    method DeleteFromParentVector(file: Ptr, parent: Ptr)
      requires file in heap && parent in heap
      requires forall c :: c in heap[parent].children ==> c in heap
      modifies this`heap
      ensures heap == Erased(old(heap), parent, file)
    {
      var s := heap[parent].children;
      var k := 0;
      while k < |s| && !Like(heap[file], heap[s[k]])
        invariant 0 <= k <= |s|
        invariant forall i :: 0 <= i < k ==> !Like(heap[file], heap[s[i]])
        invariant heap == old(heap)
      {
        k := k + 1;
      }
      if k < |s| {
        heap := heap[parent := heap[parent].(children := s[..k] + s[k + 1..])];
      }
    }
  
    /** moveFile: the entry with its whole subtree goes below another directory; every address,
        id and name stays, and only the moved entry's parent changes. */
    method MoveFile(file: Ptr, pnew: Ptr)
      requires Sound(heap, rank, root, allFileCount)
      requires file == 0 || pnew == 0
            || (Attached(heap, file) && pnew in heap && heap[pnew].dir && !Under(heap, pnew, file))
      modifies this`heap, this`rank
      ensures Sound(heap, rank, root, allFileCount)
      ensures file == 0 || pnew == 0 ==> heap == old(heap)
      ensures file != 0 && pnew != 0 ==> old(heap)[file].up.ptr in old(heap) && heap == Moved(old(heap), file, pnew)
      ensures MapOk(old(heap), dirMap) ==> MapOk(heap, dirMap)
    {
      hide *;
      if file == 0 || pnew == 0 {
        return;
      }
      ghost var before := heap;
      MoveSound(heap, rank, root, allFileCount, dirMap, file, pnew);
      LinkOverwrites(heap, file, pnew);
      EraseFromParent(heap, rank, root, allFileCount, file);
      DeleteFromParentVector(file, heap[file].up.ptr);
      heap := heap[file := heap[file].(up := Parent(pnew))];
      AddChildren(pnew, file);
      rank := MovedRank(before, rank, file, pnew);
    }

    /** renameFile: a fresh entry with the new name replaces the old one, which is freed. The map
        still finds every live directory exactly when the renamed entry is not a directory. */
    method RenameFile(file: Ptr, newName: Name) returns (ghost ret: Ptr)
      requires Sound(heap, rank, root, allFileCount) && (file == 0 || Attached(heap, file))
      modifies this`heap, this`rank
      ensures Sound(heap, rank, root, allFileCount)
      ensures file == 0 ==> heap == old(heap)
      ensures file != 0 ==>
                && ret != 0 && ret !in old(heap) && old(heap)[file].up.ptr in old(heap)
                && heap == Renamed(old(heap), file, ret, newName)
      ensures file != 0 && MapOk(old(heap), dirMap) ==> (MapOk(heap, dirMap) <==> !old(heap)[file].dir)
    {
      hide *;
      ret := 0;
      if file == 0 {
        return;
      }
      ghost var before := heap;
      var p := Alloc();
      ret := p;
      RenameSound(heap, rank, root, allFileCount, dirMap, file, ret, newName);
      RenameReady(heap, rank, root, allFileCount, file, ret, newName);
      heap := heap[p := heap[file].(name := newName)];
      AddChildren(heap[file].up.ptr, p);
      RedirectChildren(heap[file].children, p);
      DeleteFromParentVector(file, heap[file].up.ptr);
      heap := FileTree.Without(heap, {file});
      rank := rank[ret := rank[file]];
    }

    /** The loop of renameFile over the children of the old entry. */
    method RedirectChildren(children: seq<Ptr>, ret: Ptr)
      requires forall c :: c in children ==> c in heap
      modifies this`heap
      ensures heap == Redirected(old(heap), children, ret)
    {
      hide Redirected;
      var k := 0;
      RedirectNone(heap, children, ret);
      while k < |children|
        invariant 0 <= k <= |children|
        invariant forall c :: c in children[..k] ==> c in old(heap)
        invariant heap == Redirected(old(heap), children[..k], ret) && heap.Keys == old(heap).Keys
      {
        RedirectMore(old(heap), children, k, ret);
        heap := heap[children[k] := heap[children[k]].(up := Parent(ret))];
        k := k + 1;
      }
      assert children[..k] == children;
    }

    /** deleteDir: exactly the subtree is freed. `whole` is the tree before its top was unlinked. */
    method DeleteDir(file: Ptr, ghost whole: Heap, ghost ranks: map<Ptr, nat>)
      requires Linked(whole) && Ranked(whole, ranks) && file in whole && Intact(whole, heap, Subtree(whole, file))
      modifies this`heap, this`allFileCount
      ensures heap == FileTree.Without(old(heap), Subtree(whole, file))
      ensures allFileCount == old(allFileCount) - |Subtree(whole, file)|
      decreases RankedFrom(whole, ranks, file)
    {
      hide *;
      IntactAt(whole, ranks, heap, file);
      BelowStarts(whole, heap, file);
      if heap[file].dir {
        var children, k := heap[file].children, 0;
        while k < |children|
          invariant 0 <= k <= |children|
          invariant heap == FileTree.Without(old(heap), Below(whole, file, k))
          invariant allFileCount == old(allFileCount) - |Below(whole, file, k)|
        {
          ChildReady(whole, ranks, old(heap), file, k);
          DeleteDir(children[k], whole, ranks);
          k := k + 1;
        }
      } else {
        LeafHasNoChildren(whole, file);
      }
      WithoutMore(old(heap), Below(whole, file, |whole[file].children|), {file});
      heap := FileTree.Without(heap, {file});
      allFileCount := allFileCount - 1;
    }

    /** deleteFile: the entry leaves its parent's vector and exactly its subtree is freed. */
    method DeleteFile(file: Ptr)
      requires Sound(heap, rank, root, allFileCount)
      requires file == 0 || (file in heap && (heap[file].up.Parent? || heap[file].up.key == 0))
      modifies this`heap, this`allFileCount
      ensures file == 0 ==> heap == old(heap) && allFileCount == old(allFileCount)
      ensures file != 0 ==> allFileCount == old(allFileCount) - |Subtree(old(heap), file)|
      ensures file != 0 && !Attached(old(heap), file) ==> heap == FileTree.Without(old(heap), Subtree(old(heap), file))
      ensures file != 0 && Attached(old(heap), file) ==>
                old(heap)[file].up.ptr in old(heap) && heap == Deleted(old(heap), file)
      ensures file == 0 || Attached(old(heap), file) ==> Sound(heap, rank, root, allFileCount)
      ensures file != 0 ==> Linked(heap) && Ranked(heap, rank) && UniqueIds(heap) && allFileCount == |heap|
      ensures file != 0 && !Attached(old(heap), file) ==> (heap == map[] <==> OnlyTop(old(heap), file))
      ensures MapOk(old(heap), dirMap) ==> MapOk(heap, dirMap)
    {
      hide *;
      if file == 0 {
        return;
      }
      DeleteReady(heap, rank, root, allFileCount, dirMap, file);
      ghost var whole := heap;
      if Attached(heap, file) {
        SoundIs(Deleted(heap, file), rank, root, allFileCount - |Subtree(heap, file)|);
      } else {
        TreeDeleted(heap, rank, root, allFileCount, file);
      }
      if heap[file].up.Parent? && heap[file].up.ptr != 0 {
        DeleteFromParentVector(file, heap[file].up.ptr);
      }
      if heap[file].dir {
        DeleteDir(file, whole, rank);
      } else {
        heap := FileTree.Without(heap, {file});
        allFileCount := allFileCount - 1;
      }
    }

    /** findFile: the entry with id frn among the children of the directory with id pfrn. */
    method FindFile(frn: Key, pfrn: Key) returns (file: Ptr)
      requires Linked(heap) && (FindDir(pfrn) == 0 || FindDir(pfrn) in heap)
      ensures file == 0 || (file in heap && heap[file].frn == frn && heap[file].up == Parent(FindDir(pfrn)))
      ensures file == 0 && FindDir(pfrn) != 0 ==>
                forall p :: p in heap && heap[p].up == Parent(FindDir(pfrn)) ==> heap[p].frn != frn
    {
      hide Linked;
      var parent := FindDir(pfrn);
      if parent == 0 {
        return 0;
      }
      ChildrenOf(heap, parent);
      if !heap[parent].dir {
        return 0;
      }
      var children, k := heap[parent].children, 0;
      while k < |children|
        invariant 0 <= k <= |children|
        invariant forall i :: 0 <= i < k ==> heap[children[i]].frn != frn
      {
        if heap[children[k]].frn == frn {
          return children[k];
        }
        k := k + 1;
      }
      return 0;
    }

    /** initFileEntry: a new entry, not yet attached, known to the map if it is a directory. An id that
        is not 0 and not in use keeps the invariant, and the map as it should be. */
    method InitFileEntry(frn: Key, pfrn: Key, dir: bool, name: Name, attrs: Attrs) returns (ret: Ptr)
      modifies this`heap, this`dirMap, this`tmpList, this`allFileCount, this`rank
      ensures ret !in old(heap) && ret != 0 && allFileCount == old(allFileCount) + 1
      ensures heap == old(heap)[ret := Entry(frn, ParentKey(pfrn), [], dir, name, attrs)]
      ensures dirMap == (if dir then old(dirMap)[frn := ret] else old(dirMap)) && tmpList == old(tmpList) + [ret]
      ensures old(Sound(heap, rank, root, allFileCount)) && NewId(old(heap), frn) ==>
                Sound(heap, rank, root, allFileCount) && (MapOk(old(heap), old(dirMap)) ==> MapOk(heap, dirMap))
    {
      ret := Alloc();
      if Sound(heap, rank, root, allFileCount) && NewId(heap, frn) {
        EntryAdded(heap, rank, root, allFileCount, dirMap, ret, frn, pfrn, dir, name, attrs);
      }
      hide *;
      heap := heap[ret := Entry(frn, ParentKey(pfrn), [], dir, name, attrs)];
      Add2Map(ret);
      allFileCount := allFileCount + 1;
      rank := rank[ret := 0];
    }

    /** attachParent: the entry's stored parent id becomes a link, if that directory is known. The
        invariant survives when that is a directory which does not hang below the entry. */
    method AttachParent(file: Ptr) returns (r: bool)
      requires file in heap && (file == root || heap[file].up.ParentKey?)
      requires file != root ==> FindDir(heap[file].up.key) == 0 || FindDir(heap[file].up.key) in heap
      modifies this`heap, this`rank
      ensures r <==> file != root && FindDir(old(heap)[file].up.key) != 0
      ensures heap == if r then Link(old(heap), FindDir(old(heap)[file].up.key), file) else old(heap)
      ensures old(Sound(heap, rank, root, allFileCount))
              && (r ==> CanAttach(old(heap), FindDir(old(heap)[file].up.key), file)) ==>
                Sound(heap, rank, root, allFileCount)
      ensures MapOk(old(heap), dirMap) ==> MapOk(heap, dirMap)
    {
      hide *;
      if file == root {
        return false;
      }
      var parent := FindDir(heap[file].up.key);
      if parent == 0 {
        return false;
      }
      LinkKeepsMap(heap, dirMap, parent, file);
      if Sound(heap, rank, root, allFileCount) && CanAttach(heap, parent, file) {
        LinkSound(heap, rank, root, allFileCount, parent, file);
        rank := MovedRank(heap, rank, file, parent);
      }
      AddChildren(parent, file);
      return true;
    }

    /** An index with nothing loaded (after resetMap). */
    constructor ()
      ensures heap == map[] && dirMap == map[] && tmpList == [] && root == 0 && allFileCount == 0 && rank == map[]
    {
      heap, dirMap, tmpList, root, allFileCount, rank := map[], map[], [], 0, 0, map[];
    }
  }
}
