/** The two ends of an index file: FilesIterate with FileWriteVisitor, and readfile followed by
    build_dir (filesearch/write.c, filesearch/fs_common2.cpp). */
module IndexIO {
  import opened Chars
  import opened FileTree
  import opened FileEdits
  import opened FileIndex
  import opened BuildDir
  import opened Streams
  import opened IndexStore
  import opened LoadedList
  import opened LittleEndian
  import opened TreeRecords
  import opened IndexRoundTrip

  // ---------- writing ----------

  /** Every field fits the bytes it is written in, as its C type guarantees. */
  ghost predicate Fits(heap: Heap, w: nat) {
    forall p :: p in heap ==>
      p < Pow256(w) && heap[p].frn < Pow256(w) && |heap[p].name.bytes| <= 255 && heap[p].attrs.size1 < 16
  }

  /** The id written for the parent: 0 for the root. */
  function ParentKeyOf(heap: Heap, ntfs: bool, p: Ptr): Key
    requires p in heap && (FileTree.Attached(heap, p) ==> heap[p].up.ptr in heap)
  {
    if FileTree.Attached(heap, p) then KeyOf(heap, ntfs, heap[p].up.ptr) else 0
  }

  function RecOf(heap: Heap, ntfs: bool, p: Ptr): Rec
    requires p in heap && (FileTree.Attached(heap, p) ==> heap[p].up.ptr in heap)
  {
    Rec(KeyOf(heap, ntfs, p), ParentKeyOf(heap, ntfs, p), heap[p].dir, heap[p].name, heap[p].attrs)
  }

  lemma RecFits(heap: Heap, ntfs: bool, p: Ptr, w: nat)
    requires Linked(heap) && Fits(heap, w) && p in heap
    ensures FileTree.Attached(heap, p) ==> heap[p].up.ptr in heap
    ensures Storable(RecOf(heap, ntfs, p), w)
  {
    assert NodeOk(heap, p);
    PowPositive(w);
  }

  lemma {:induction false} PowPositive(w: nat)
    ensures Pow256(w) > 0
  {
    if w > 0 {
      PowPositive(w - 1);
    }
  }

  /** FileWriteVisitor: the id, the parent's id, then everything from `us` to the end of the name. */
  method FileWriteVisitor(ix: Index, file: Ptr, ntfs: bool, w: nat, fp: Stream)
    requires Linked(ix.heap) && Fits(ix.heap, w) && file in ix.heap
    requires ix.heap[file].up.Parent? || ix.heap[file].up.key == 0
    modifies fp`data
    ensures (FileTree.Attached(ix.heap, file) ==> ix.heap[file].up.ptr in ix.heap)
            && Storable(RecOf(ix.heap, ntfs, file), w)
            && fp.data == old(fp.data) + RecBytes(RecOf(ix.heap, ntfs, file), w)
  {
    hide Linked, Fits;
    RecFits(ix.heap, ntfs, file, w);
    ghost var r := RecOf(ix.heap, ntfs, file);
    var e := ix.heap[file];
    if ntfs {
      fp.Write(Le(e.frn, w));
      if e.up.ParentKey? || e.up.ptr == 0 {
        fp.Write(Le(0, w));
      } else {
        fp.Write(Le(ix.heap[e.up.ptr].frn, w));
      }
    } else {
      fp.Write(Le(file, w));
      if e.up.ParentKey? || e.up.ptr == 0 {
        fp.Write(Le(0, w));
      } else {
        fp.Write(Le(e.up.ptr, w));
      }
    }
    fp.Write([Flags(e.attrs, e.dir), e.attrs.size2, |e.name.bytes|, e.name.strLen,
              e.attrs.time1, e.attrs.time2, e.attrs.time3, e.attrs.suffixType] + e.name.bytes);
    WriteParts(old(fp.data), Le(r.frn, w), Le(r.parent, w), Words(r), r.name.bytes);
  }

  lemma WriteParts(before: seq<byte>, a: seq<byte>, b: seq<byte>, c: seq<byte>, d: seq<byte>)
    ensures before + a + b + (c + d) == before + (a + b + c + d)
  {
  }

  lemma {:induction false} RepresentsMore(heap: Heap, ntfs: bool, ps: seq<Ptr>, ts: seq<Tree>, p: Ptr, t: Tree)
    requires RepresentsAll(heap, ntfs, ps, ts) && Represents(heap, ntfs, p, t)
    ensures RepresentsAll(heap, ntfs, ps + [p], ts + [t])
    decreases ts
  {
    if ts == [] {
      assert RepresentsAll(heap, ntfs, [], []);
    } else {
      RepresentsMore(heap, ntfs, ps[1..], ts[1..], p, t);
      assert (ps + [p])[1..] == ps[1..] + [p] && (ts + [t])[1..] == ts[1..] + [t];
    }
  }

  lemma {:induction false} RecsMore(ts: seq<Tree>, t: Tree, pid: Key)
    ensures RecsAll(ts + [t], pid) == RecsAll(ts, pid) + Recs(t, pid)
    decreases ts
  {
    if ts == [] {
      assert [t][1..] == [];
    } else {
      RecsMore(ts[1..], t, pid);
      assert (ts + [t])[1..] == ts[1..] + [t];
    }
  }

  lemma BytesMore(rs: seq<Rec>, more: seq<Rec>, w: nat)
    requires (forall r :: r in rs ==> Storable(r, w)) && forall r :: r in more ==> Storable(r, w)
    ensures forall r :: r in rs + more ==> Storable(r, w)
    ensures AllBytes(rs + more, w) == AllBytes(rs, w) + AllBytes(more, w)
  {
    AllBytesConcat(rs, more, w);
  }

  /** One more child was written: its bytes follow, and its tree joins the trees before it. */
  lemma ChildWritten(heap: Heap, ntfs: bool, f: Ptr, top: Rec, k: int, kids: seq<Tree>, t: Tree, w: nat)
    requires f in heap && 0 <= k < |heap[f].children| && RepresentsAll(heap, ntfs, heap[f].children[..k], kids)
    requires Represents(heap, ntfs, heap[f].children[k], t)
    requires forall r :: r in [top] + RecsAll(kids, top.frn) ==> Storable(r, w)
    requires forall r :: r in Recs(t, top.frn) ==> Storable(r, w)
    ensures RepresentsAll(heap, ntfs, heap[f].children[..k + 1], kids + [t])
    ensures forall r :: r in [top] + RecsAll(kids + [t], top.frn) ==> Storable(r, w)
    ensures AllBytes([top] + RecsAll(kids + [t], top.frn), w)
            == AllBytes([top] + RecsAll(kids, top.frn), w) + AllBytes(Recs(t, top.frn), w)
  {
    hide Storable, Represents, RepresentsAll, AllBytes, Recs, RecsAll;
    assert heap[f].children[..k + 1] == heap[f].children[..k] + [heap[f].children[k]];
    RepresentsMore(heap, ntfs, heap[f].children[..k], kids, heap[f].children[k], t);
    RecsMore(kids, t, top.frn);
    assert [top] + RecsAll(kids + [t], top.frn) == ([top] + RecsAll(kids, top.frn)) + Recs(t, top.frn);
    BytesMore([top] + RecsAll(kids, top.frn), Recs(t, top.frn), w);
  }

  lemma TopWritten(heap: Heap, ntfs: bool, f: Ptr, top: Rec, w: nat)
    requires f in heap && Storable(top, w)
    ensures RepresentsAll(heap, ntfs, heap[f].children[..0], [])
    ensures forall r :: r in [top] + RecsAll([], top.frn) ==> Storable(r, w)
    ensures AllBytes([top] + RecsAll([], top.frn), w) == RecBytes(top, w)
  {
    assert [top] + RecsAll([], top.frn) == [top];
    assert AllBytes([top], w) == RecBytes(top, w) + AllBytes([], w);
  }

  lemma NextChild(heap: Heap, rank: map<Ptr, nat>, ntfs: bool, f: Ptr, k: int)
    requires Linked(heap) && Ranked(heap, rank) && f in heap && 0 <= k < |heap[f].children|
    ensures var c := heap[f].children[k];
            && c in heap && c != 0 && heap[c].up.Parent? && FileTree.Attached(heap, c) && heap[c].up.ptr in heap
            && ParentKeyOf(heap, ntfs, c) == KeyOf(heap, ntfs, f)
            && RankedFrom(heap, rank, c) < RankedFrom(heap, rank, f)
  {
    var c := heap[f].children[k];
    ChildNotNull(heap, f, c);
    RankedFromShrinks(heap, rank, f, c);
  }

  lemma AllWritten(heap: Heap, ntfs: bool, f: Ptr, kids: seq<Tree>)
    requires f in heap && RepresentsAll(heap, ntfs, heap[f].children, kids)
    requires FileTree.Attached(heap, f) ==> heap[f].up.ptr in heap
    ensures var top := RecOf(heap, ntfs, f);
            var t := Tree.Node(top.frn, top.dir, top.name, top.attrs, kids);
            Represents(heap, ntfs, f, t) && Recs(t, top.parent) == [top] + RecsAll(kids, top.frn)
  {
  }

  /** FilesIterate with FileWriteVisitor: the subtree's records go to the end of the file in preorder. */
  method FilesIterate(ix: Index, file: Ptr, ntfs: bool, w: nat, fp: Stream) returns (ghost t: Tree)
    requires Linked(ix.heap) && Ranked(ix.heap, ix.rank) && Fits(ix.heap, w)
    requires file == 0 || (file in ix.heap && (ix.heap[file].up.Parent? || ix.heap[file].up.key == 0))
    modifies fp`data
    ensures file == 0 ==> fp.data == old(fp.data)
    ensures file != 0 ==>
              && (FileTree.Attached(ix.heap, file) ==> ix.heap[file].up.ptr in ix.heap)
              && Represents(ix.heap, ntfs, file, t)
              && (forall r :: r in Recs(t, ParentKeyOf(ix.heap, ntfs, file)) ==> Storable(r, w))
              && fp.data == old(fp.data) + AllBytes(Recs(t, ParentKeyOf(ix.heap, ntfs, file)), w)
    decreases RankedFrom(ix.heap, ix.rank, file)
  {
    hide *;
    if file == 0 {
      t := Tree.Node(0, false, Name.Name([], 0), Attrs.Attrs(false, false, false, 0, 0, 0, 0, 0, 0), []);
      return;
    }
    FileWriteVisitor(ix, file, ntfs, w, fp);
    ghost var top := RecOf(ix.heap, ntfs, file);
    ghost var kids: seq<Tree> := [];
    var children, k := ix.heap[file].children, 0;
    TopWritten(ix.heap, ntfs, file, top, w);
    if !ix.heap[file].dir {
      LeafHasNoChildren(ix.heap, file);
    } else {
      while k < |children|
        invariant 0 <= k <= |children|
        invariant RepresentsAll(ix.heap, ntfs, children[..k], kids)
        invariant forall r :: r in [top] + RecsAll(kids, top.frn) ==> Storable(r, w)
        invariant fp.data == old(fp.data) + AllBytes([top] + RecsAll(kids, top.frn), w)
      {
        NextChild(ix.heap, ix.rank, ntfs, file, k);
        ghost var u := FilesIterate(ix, children[k], ntfs, w, fp);
        RecIs(ix.heap, ntfs, file);
        ChildWritten(ix.heap, ntfs, file, top, k, kids, u, w);
        kids := kids + [u];
        k := k + 1;
      }
    }
    assert children[..k] == children;
    AllWritten(ix.heap, ntfs, file, kids);
    RecIs(ix.heap, ntfs, file);
    t := Tree.Node(top.frn, top.dir, top.name, top.attrs, kids);
  }

  lemma RecIs(heap: Heap, ntfs: bool, p: Ptr)
    requires p in heap && (FileTree.Attached(heap, p) ==> heap[p].up.ptr in heap)
    ensures RecOf(heap, ntfs, p).frn == KeyOf(heap, ntfs, p)
    ensures RecOf(heap, ntfs, p).parent == ParentKeyOf(heap, ntfs, p)
  {
  }

  /** save2file0 after the header: the whole index goes out as the records of a proper tree. */
  method Save(ix: Index, ntfs: bool, w: nat, fp: Stream) returns (ghost t: Tree)
    requires Sound(ix.heap, ix.rank, ix.root, ix.allFileCount) && Fits(ix.heap, w)
    requires ix.heap[ix.root].up.Parent? || ix.heap[ix.root].up.key == 0
    modifies fp`data
    ensures Represents(ix.heap, ntfs, ix.root, t) && Proper(t)
    ensures (forall r :: r in Recs(t, 0) ==> Storable(r, w)) && fp.data == old(fp.data) + AllBytes(Recs(t, 0), w)
  {
    hide *;
    SoundParts(ix.heap, ix.rank, ix.root, ix.allFileCount, ntfs);
    t := FilesIterate(ix, ix.root, ntfs, w, fp);
    SavedProper(ix.heap, ix.rank, ntfs, ix.root, t);
  }

  lemma SoundParts(heap: Heap, rank: map<Ptr, nat>, root: Ptr, count: int, ntfs: bool)
    requires Sound(heap, rank, root, count)
    ensures Linked(heap) && Ranked(heap, rank) && UniqueIds(heap) && root in heap && root != 0
    ensures !FileTree.Attached(heap, root) && ParentKeyOf(heap, ntfs, root) == 0
  {
  }

  // ---------- reading ----------

  /** IsRoot(id): the low word is ROOT_NUMBER. */
  predicate IsRoot(id: Key) { id % 0x1_0000_0000 == 5 }

  /** What `!IsRoot(id)` leaves through. The macro lacks parentheses, so that the test reads
      `(!5) == (id & 0xFFFFFFFF)`: it refuses ids whose low word is 0, not ids that differ from 5. */
  predicate PassesRootTest(id: Key) { id % 0x1_0000_0000 != 0 }

  /** The test does what it is named for exactly when the low word is 0 or 5; 6 is let through. */
  lemma RootTestExact(id: Key)
    ensures (PassesRootTest(id) <==> IsRoot(id)) <==> id % 0x1_0000_0000 in {0, 5}
    ensures PassesRootTest(6) && !IsRoot(6)
  {
  }

  /** What readfile asks of the first record on a drive: parent id 0 and, on NTFS, the root test. */
  predicate RootOk(r: Rec, ntfs: bool) {
    (ntfs ==> PassesRootTest(r.frn)) && r.parent == 0
  }

  predicate Accepts(f: IndexStore.File, ntfs: bool) {
    f.ok && (f.recs == [] || RootOk(f.recs[0], ntfs))
  }

  /** One turn of the loop of readfile, up to the name. */
  method ReadEntry(fp: Stream, w: nat) returns (p: Parsed)
    requires fp.pos <= |fp.data| && 0 < w
    modifies fp`pos, fp`eof
    ensures p == ParseRec(fp.data[old(fp.pos)..], w)
    ensures fp.pos <= |fp.data| && (p.Got? ==> fp.pos == old(fp.pos) + p.used)
  {
    hide FromLe, AttrsOf;
    ghost var rest := fp.data[fp.pos..];
    var d, keys := fp.Read(w, 2);
    if d < 2 {
      return if fp.eof then End else Bad;
    }
    var words, name;
    d, words := fp.Read(4, 2);
    if d < 2 {
      return Bad;
    }
    d, name := fp.Read(1, words[2]);
    if d < words[2] {
      return Bad;
    }
    assert keys == rest[..2 * w] && words == rest[2 * w..2 * w + 8];
    assert name == rest[2 * w + 8..2 * w + 8 + words[2]];
    assert keys[..w] == rest[..w] && keys[w..] == rest[w..2 * w];
    var rec := Rec(FromLe(keys[..w]), FromLe(keys[w..]), words[0] / 8 % 2 == 1, Name.Name(name, words[3]),
                   AttrsOf(words));
    return Got(rec, 2 * w + 8 + words[2]);
  }

  /** The records seen so far come before those still in the file. */
  function After(rs: seq<Rec>, f: IndexStore.File): IndexStore.File {
    IndexStore.File(f.ok, rs + f.recs)
  }

  lemma ParseStep(rs: seq<Rec>, data: seq<byte>, pos: nat, w: nat)
    requires pos <= |data|
    ensures match ParseRec(data[pos..], w)
            case End => After(rs, ParseAll(data[pos..], w)) == IndexStore.File(true, rs)
            case Bad => After(rs, ParseAll(data[pos..], w)) == IndexStore.File(false, rs)
            case Got(r, used) =>
              && 8 <= used && pos + used <= |data|
              && After(rs, ParseAll(data[pos..], w)) == After(rs + [r], ParseAll(data[pos + used..], w))
              && After(rs, ParseAll(data[pos..], w)).recs != [] 
              && After(rs, ParseAll(data[pos..], w)).recs[0] == (rs + [r])[0]
  {
    match ParseRec(data[pos..], w)
    case End =>
    case Bad =>
    case Got(r, used) =>
      var more := ParseAll(data[pos + used..], w).recs;
      assert data[pos..][used..] == data[pos + used..];
      assert rs + ([r] + more) == (rs + [r]) + more;
  }

  lemma ParseStarts(f: IndexStore.File)
    ensures After([], f) == f
  {
  }

  /** The loop of readfile on any bytes at all: what it accepts, and what is in memory if it does. */
  method ReadFile(ix: Index, fp: Stream, ntfs: bool, w: nat) returns (ok: bool)
    requires ix.heap == map[] && ix.dirMap == map[] && ix.tmpList == [] && ix.allFileCount == 0
    requires fp.pos <= |fp.data| && 0 < w
    modifies ix, fp`pos, fp`eof
    ensures ok <==> Accepts(ParseAll(fp.data[old(fp.pos)..], w), ntfs)
    ensures ok ==>
              var rs := ParseAll(fp.data[old(fp.pos)..], w).recs;
              && Loaded(ix.heap, ix.tmpList, ix.dirMap, rs) && ix.allFileCount == |rs|
              && (rs != [] ==> |ix.tmpList| > 0 && ix.root == ix.tmpList[0])
  {
    hide *;
    ghost var rs: seq<Rec> := [];
    ghost var whole := ParseAll(fp.data[fp.pos..], w);
    var genRoot := false;
    NothingLoaded();
    ParseStarts(whole);
    while true
      invariant fp.pos <= |fp.data| && fp.data == old(fp.data)
      invariant Loaded(ix.heap, ix.tmpList, ix.dirMap, rs) && ix.allFileCount == |rs|
      invariant whole == After(rs, ParseAll(fp.data[fp.pos..], w))
      invariant genRoot <==> rs != []
      invariant genRoot ==> |ix.tmpList| > 0 && ix.root == ix.tmpList[0] && RootOk(rs[0], ntfs)
      decreases |fp.data| - fp.pos
    {
      ParseStep(rs, fp.data, fp.pos, w);
      var p := ReadEntry(fp, w);
      if !p.Got? {
        AcceptsIs(whole, ntfs);
        return p.End?;
      }
      var r := p.rec;
      var file := ix.Alloc();
      LoadedMore(ix.heap, ix.tmpList, ix.dirMap, rs, file, r);
      EntryIs(r);
      ix.heap := ix.heap[file := Entry(r.frn, ParentKey(r.parent), [], r.dir, r.name, r.attrs)];
      ix.Add2Map(file);
      if !genRoot {
        if (ntfs && r.frn % 0x1_0000_0000 == 0) || r.parent != 0 {
          AcceptsIs(whole, ntfs);
          RootIs(r, ntfs);
          return false;
        }
        RootIs(r, ntfs);
        ix.root := file;
        genRoot := true;
      }
      rs := rs + [r];
      ix.allFileCount := ix.allFileCount + 1;
    }
  }

  lemma AcceptsIs(f: IndexStore.File, ntfs: bool)
    ensures Accepts(f, ntfs) <==> f.ok && (f.recs == [] || RootOk(f.recs[0], ntfs))
  {
  }

  lemma RootIs(r: Rec, ntfs: bool)
    ensures RootOk(r, ntfs) <==> (ntfs ==> r.frn % 0x1_0000_0000 != 0) && r.parent == 0
  {
  }

  lemma EntryIs(r: Rec)
    ensures EntryOf(r) == Entry(r.frn, ParentKey(r.parent), [], r.dir, r.name, r.attrs)
  {
  }

  /** A written file that was cut off is accepted exactly when fewer bytes than two keys follow its last whole
      record, and its first record, if that is left, passes. */
  lemma CutAccepted(rs: seq<Rec>, w: nat, n: nat, k: nat, ntfs: bool)
    requires 0 < w && (forall r :: r in rs ==> Storable(r, w)) && n <= |AllBytes(rs, w)| && CutAt(rs, w, n, k)
    ensures Accepts(ParseAll(AllBytes(rs, w)[..n], w), ntfs) <==>
            n < |AllBytes(rs[..k], w)| + 2 * w && (k > 0 ==> RootOk(rs[0], ntfs))
  {
    CutFile(rs, w, n, k);
    hide ParseAll, AllBytes, RootOk;
  }

  /** readfile and build_dir on any bytes at all: what is accepted, what it becomes, and when that satisfies
      the invariant. Records in the preorder of a proper tree become that tree, with every vector in its
      old order. */
  method Load(ix: Index, fp: Stream, ntfs: bool, w: nat) returns (ok: bool, ghost loaded: Heap, ghost list: seq<Ptr>)
    requires ix.heap == map[] && ix.dirMap == map[] && ix.tmpList == [] && ix.allFileCount == 0
    requires fp.pos <= |fp.data| && 0 < w
    modifies ix, fp`pos, fp`eof
    ensures ok <==> Accepts(ParseAll(fp.data[old(fp.pos)..], w), ntfs)
    ensures ok ==>
              var rs := ParseAll(fp.data[old(fp.pos)..], w).recs;
              && Loaded(loaded, list, ix.dirMap, rs) && BuiltUpTo(loaded, list, |list|, ix.root, ix.dirMap, ix.heap)
              && ix.allFileCount == |rs| && Linked(ix.heap)
              && (rs != [] ==> list != [] && ix.root == list[0])
              && (Sound(ix.heap, ix.rank, ix.root, ix.allFileCount)
                  <==> Buildable(loaded, ix.dirMap, ix.root, ix.allFileCount))
    ensures forall t: Tree :: ok && Proper(t) && ParseAll(fp.data[old(fp.pos)..], w).recs == Recs(t, 0) ==>
              && Sound(ix.heap, ix.rank, ix.root, ix.allFileCount) && MapOk(ix.heap, ix.dirMap)
              && Represents(ix.heap, true, ix.root, t)
  {
    hide *;
    loaded, list := map[], [];
    ghost var rs := ParseAll(fp.data[fp.pos..], w).recs;
    ok := ReadFile(ix, fp, ntfs, w);
    if !ok {
      return;
    }
    loaded, list := ix.heap, ix.tmpList;
    LoadedIsListed(loaded, list, ix.dirMap, rs);
    Build(ix);
    forall t: Tree | Proper(t) && rs == Recs(t, 0)
      ensures Sound(ix.heap, ix.rank, ix.root, ix.allFileCount) && MapOk(ix.heap, ix.dirMap)
      ensures Represents(ix.heap, true, ix.root, t)
    {
      SomeRecord(t);
      ReadBack(loaded, list, ix.dirMap, ix.heap, t);
    }
  }

  lemma SomeRecord(t: Tree)
    ensures Recs(t, 0) != []
  {
  }

  /** The bytes of a proper tree parse to its records, and are accepted unless the root's id is bad. */
  lemma Accepted(t: Tree, w: nat, ntfs: bool)
    requires 0 < w && Proper(t) && forall r :: r in Recs(t, 0) ==> Storable(r, w)
    ensures ParseAll(AllBytes(Recs(t, 0), w), w) == IndexStore.File(true, Recs(t, 0)) && Recs(t, 0) != []
    ensures Accepts(IndexStore.File(true, Recs(t, 0)), ntfs) <==> !(ntfs && t.id % 0x1_0000_0000 == 0)
  {
    hide ParseAll, Storable;
    ParseAllBytes(Recs(t, 0), w);
  }

  /** The round trip: whatever sound index was written, the entries made of its bytes and attached by
      build_dir are the same tree, with the ids under which it was written. */
  lemma RoundTrip(heap: Heap, rank: map<Ptr, nat>, ntfs: bool, root: Ptr, t: Tree, w: nat,
                  loaded: Heap, list: seq<Ptr>, dirMap: map<Key, Ptr>, after: Heap)
    requires Linked(heap) && Ranked(heap, rank) && UniqueIds(heap) && Represents(heap, ntfs, root, t)
    requires 0 < w && forall r :: r in Recs(t, 0) ==> Storable(r, w)
    requires Loaded(loaded, list, dirMap, ParseAll(AllBytes(Recs(t, 0), w), w).recs) && list != []
    requires BuiltUpTo(loaded, list, |list|, list[0], dirMap, after)
    ensures Represents(after, true, list[0], t)
  {
    hide *;
    SavedProper(heap, rank, ntfs, root, t);
    Accepted(t, w, ntfs);
    ReadBack(loaded, list, dirMap, after, t);
  }
}
