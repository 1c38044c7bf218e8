/** The scan of an NTFS drive: scan of filesearch/main_win.c with the loop of ScanMFT
    (filesearch/ntfs.c) and genRootFileEntry (filesearch/fs_common.c). The records come from the
    operating system in any order, and the root is listed last. */
module Scan {
  import opened BuildDir
  import opened Chars
  import opened FileEdits
  import opened FileIndex
  import opened FileTree
  import opened IndexStore
  import opened LoadedList
  import opened TreeRecords

  const ROOT_NUMBER := 5
  const SF_DIR := 2

  /** What genRootFileEntry puts into the root: its name is the drive letter and a colon. */
  function RootRec(drive: nat): Rec
    requires drive < 26
  {
    Rec(ROOT_NUMBER, 0, true, Name.Name([65 + drive, 58], 2),
        Attrs.Attrs(false, false, false, 0, 0, 0, 0, 0, SF_DIR))
  }

  /** The letters of the drives: the root of the third is "C:", and its id is 5. */
  lemma RootOfDrive(drive: nat)
    requires drive < 26
    ensures var r := RootRec(drive); r.frn == 5 && r.dir && |r.name.bytes| == r.name.strLen == 2
    ensures RootRec(drive).attrs == Attrs.Attrs(false, false, false, 0, 0, 0, 0, 0, 2)
    ensures var b := RootRec(drive).name.bytes; |UPPER| == 26 && b[0] as char == UPPER[drive] && b[1] as char == ':'
    ensures drive == 2 ==> RootRec(drive).name.bytes == [67, 58]
  {
    hide UPPER;
    LettersAre(drive);
  }

  method GenRootFileEntry(ix: Index, drive: nat) returns (ret: Ptr)
    requires drive < 26
    modifies ix`heap, ix`root, ix`allFileCount
    ensures ret != 0 && ret !in old(ix.heap) && ix.heap == old(ix.heap)[ret := EntryOf(RootRec(drive))]
    ensures ix.root == ret && ix.allFileCount == old(ix.allFileCount) + 1
  {
    ret := ix.Alloc();
    ix.heap := ix.heap[ret := Entry(ROOT_NUMBER, ParentKey(0), [], true, Name.Name([65 + drive, 58], 2),
                                    Attrs.Attrs(false, false, false, 0, 0, 0, 0, 0, SF_DIR))];
    ix.root := ret;
    ix.allFileCount := ix.allFileCount + 1;
  }

  /** The whole scan: whatever the order of the records, every entry whose directory is among them (or is
      the root) hangs below it, and the result satisfies the invariant exactly when ids are unique and
      parent ids make no cycle. */
  method ScanDrive(ix: Index, rs: seq<Rec>, drive: nat) returns (ghost loaded: Heap, ghost list: seq<Ptr>)
    requires ix.heap == map[] && ix.allFileCount == 0 && drive < 26
    modifies ix
    ensures Loaded(loaded, list, ix.dirMap, rs + [RootRec(drive)]) && ix.root == list[|rs|]
    ensures BuiltUpTo(loaded, list, |list|, ix.root, ix.dirMap, ix.heap) && Linked(ix.heap)
    ensures ix.allFileCount == |rs| + 1 && ix.tmpList == []
    ensures Sound(ix.heap, ix.rank, ix.root, ix.allFileCount)
            <==> Buildable(loaded, ix.dirMap, ix.root, ix.allFileCount)
    ensures GoodIds(rs + [RootRec(drive)]) ==>
              MapOk(ix.heap, ix.dirMap)
              && forall p :: p in ix.heap ==>
                   p in loaded
                   && ix.heap[p].children == if loaded[p].dir then KidsOf(loaded, list, loaded[p].frn) else []
    ensures GoodIds(rs + [RootRec(drive)]) ==>
              && ix.root in ix.heap && ix.heap[ix.root].children == KidsOf(loaded, list, 5)
              && ix.heap[ix.root].name == RootRec(drive).name
  {
    hide *;
    ix.dirMap, ix.tmpList := map[], [];
    NothingLoaded();
    var k := 0;
    assert rs[..0] == [];
    while k < |rs|
      invariant 0 <= k <= |rs| && ix.allFileCount == k
      invariant Loaded(ix.heap, ix.tmpList, ix.dirMap, rs[..k])
    {
      var r := rs[k];
      ghost var heap, tmpList, dirMap := ix.heap, ix.tmpList, ix.dirMap;
      var file := ix.InitFileEntry(r.frn, r.parent, r.dir, r.name, r.attrs);
      LoadedMore(heap, tmpList, dirMap, rs[..k], file, r);
      EntryIs(r);
      assert rs[..k + 1] == rs[..k] + [r];
      k := k + 1;
    }
    assert rs[..k] == rs;
    ghost var heap, tmpList, dirMap := ix.heap, ix.tmpList, ix.dirMap;
    var root := GenRootFileEntry(ix, drive);
    RootIs(drive);
    EntryIs(RootRec(drive));
    LoadedMore(heap, tmpList, dirMap, rs, root, RootRec(drive));
    ix.Add2Map(root);
    loaded, list := ix.heap, ix.tmpList;
    LoadedIsListed(loaded, list, ix.dirMap, rs + [RootRec(drive)]);
    Build(ix);
    if GoodIds(rs + [RootRec(drive)]) {
      ScannedKids(loaded, list, ix.dirMap, rs + [RootRec(drive)], root, ix.heap);
      RootKept(loaded, list, ix.dirMap, rs, drive, root, ix.heap);
    }
  }

  lemma EntryIs(r: Rec)
    ensures EntryOf(r) == Entry(r.frn, ParentKey(r.parent), [], r.dir, r.name, r.attrs)
  {
  }

  lemma RootIs(drive: nat)
    requires drive < 26
    ensures RootRec(drive).frn == ROOT_NUMBER && RootRec(drive).parent == 0 && RootRec(drive).dir
  {
  }

  lemma RootKept(loaded: Heap, list: seq<Ptr>, dirMap: map<Key, Ptr>, rs: seq<Rec>, drive: nat, root: Ptr, heap: Heap)
    requires drive < 26 && Loaded(loaded, list, dirMap, rs + [RootRec(drive)])
    requires |list| == |rs| + 1 && root == list[|rs|] && BuiltUpTo(loaded, list, |list|, root, dirMap, heap)
    ensures root in loaded && root in heap
    ensures loaded[root].frn == 5 && loaded[root].dir && heap[root].name == RootRec(drive).name
  {
    assert (rs + [RootRec(drive)])[|rs|] == RootRec(drive);
    hide KidsAt;
  }

  lemma ScannedKids(loaded: Heap, list: seq<Ptr>, dirMap: map<Key, Ptr>, rs: seq<Rec>, root: Ptr, heap: Heap)
    requires Loaded(loaded, list, dirMap, rs) && GoodIds(rs) && root in loaded && loaded[root].up == ParentKey(0)
    requires BuiltUpTo(loaded, list, |list|, root, dirMap, heap)
    ensures MapOk(heap, dirMap)
    ensures forall p :: p in heap ==>
              p in loaded
              && heap[p].children == if loaded[p].dir then KidsOf(loaded, list, loaded[p].frn) else []
  {
    LoadedIsListed(loaded, list, dirMap, rs);
    LoadedIds(loaded, list, dirMap, rs);
    LoadedMap(loaded, list, dirMap, rs);
    BuiltKeeps(loaded, list, root, dirMap, heap);
    NoNull(loaded, dirMap, list);
    ListedDistinct(loaded, dirMap, list);
    ListedMap(loaded, dirMap, list);
    hide *;
    forall p | p in heap
      ensures p in loaded
      ensures heap[p].children == if loaded[p].dir then KidsOf(loaded, list, loaded[p].frn) else []
    {
      BuiltIs(loaded, list, root, dirMap, heap, p);
      NamedKids(loaded, dirMap, root, list, p);
    }
  }
}
