/** Journal replay: genFileEntryOne and updateFileEntry of filesearch/ntfs.c, on one drive. The
    tree in memory is compared with what the records say happened to the volume. */
module Journal {
  import opened FileTree
  import opened FileEdits
  import opened FileIndex

  /** USN_RECORD with the five reason bits that updateFileEntry tests. */
  datatype Record = Record(create: bool, renameOld: bool, renameNew: bool, delete: bool, close: bool,
                           frn: Key, pfrn: Key, dir: bool, name: Name, attrs: Attrs)
  {
    /** The record carries one kind of change. */
    predicate OneKind() {
      && (create ==> !renameOld && !renameNew && !delete)
      && (renameOld ==> !renameNew && !delete)
      && !(renameNew && delete)
    }
  }

  /** What is known of a live id: its directory's id (0 for the root), its kind, its name and its attributes. */
  datatype Node = Node(parent: Key, dir: bool, name: Name, attrs: Attrs)

  type Volume = map<Key, Node>

  // ---------- the volume and what records do to it ----------

  function Ancestor(m: Volume, k: Key, n: nat): Key
    decreases n
  {
    if n == 0 then k else if k in m && m[k].parent != 0 then Ancestor(m, m[k].parent, n - 1) else 0
  }

  /** k is f or lies somewhere below it. */
  ghost predicate Inside(m: Volume, k: Key, f: Key) {
    exists n: nat :: Ancestor(m, k, n) == f
  }

  /** The volume after a record, but for one thing: a rename into another directory keeps the old name,
      as moveFile does. */
  ghost function Apply(m: Volume, r: Record): Volume {
    if r.create && r.close then m[r.frn := Node(r.pfrn, r.dir, r.name, r.attrs)]
    else if r.renameNew && r.close && r.frn in m then
      m[r.frn := if r.pfrn == m[r.frn].parent then m[r.frn].(name := r.name) else m[r.frn].(parent := r.pfrn)]
    else if r.delete && r.close then WithoutInside(m, r.frn)
    else m
  }

  /** The pending old name after a record. */
  function Pending(old_: (Key, Key), r: Record): (Key, Key) {
    if r.renameOld then (r.frn, r.pfrn) else old_
  }

  /** The record can follow in a journal of volume m: a new id in a live directory; an old name
      that is the file's own; a new name right after its old name, into a live directory outside
      the moved subtree, and not of a directory that stays in place; a file that is there. */
  ghost predicate Follows(m: Volume, old_: (Key, Key), r: Record) {
    && r.OneKind()
    && (r.create && r.close ==> r.frn != 0 && r.frn !in m && r.pfrn in m && m[r.pfrn].dir)
    && (r.renameOld || (r.delete && r.close) ==> r.frn in m && r.pfrn != 0 && m[r.frn].parent == r.pfrn)
    && (r.renameNew && r.close ==>
          && r.frn in m && m[r.frn].parent != 0 && old_ == (r.frn, m[r.frn].parent)
          && if r.pfrn == m[r.frn].parent then !m[r.frn].dir
             else r.pfrn in m && m[r.pfrn].dir && !Inside(m, r.pfrn, r.frn))
  }

  ghost predicate Run(m: Volume, old_: (Key, Key), rs: seq<Record>)
    decreases |rs|
  {
    rs == [] || (Follows(m, old_, rs[0]) && Run(Apply(m, rs[0]), Pending(old_, rs[0]), rs[1..]))
  }

  ghost function Fold(m: Volume, rs: seq<Record>): Volume
    decreases |rs|
  {
    if rs == [] then m else Fold(Apply(m, rs[0]), rs[1..])
  }

  // ---------- names ----------

  /** The volume after a record, names included. */
  ghost function Happen(v: Volume, r: Record): Volume {
    if r.renameNew && r.close && !(r.create && r.close) && r.frn in v then
      v[r.frn := v[r.frn].(parent := r.pfrn, name := r.name)]
    else Apply(v, r)
  }

  ghost function HappenAll(v: Volume, rs: seq<Record>): Volume
    decreases |rs|
  {
    if rs == [] then v else HappenAll(Happen(v, rs[0]), rs[1..])
  }

  /** Two volumes that differ in names at most. */
  ghost predicate SameShape(m: Volume, v: Volume) {
    && m.Keys == v.Keys
    && forall k :: k in m ==> m[k].parent == v[k].parent && m[k].dir == v[k].dir && m[k].attrs == v[k].attrs
  }

  lemma {:induction false} AncestorSame(m: Volume, v: Volume, k: Key, n: nat)
    requires SameShape(m, v)
    ensures Ancestor(m, k, n) == Ancestor(v, k, n)
    decreases n
  {
    if n > 0 && k in m && m[k].parent != 0 {
      AncestorSame(m, v, m[k].parent, n - 1);
    }
  }

  lemma InsideSame(m: Volume, v: Volume, k: Key, f: Key)
    requires SameShape(m, v)
    ensures Inside(m, k, f) <==> Inside(v, k, f)
  {
    if n: nat :| Ancestor(m, k, n) == f {
      AncestorSame(m, v, k, n);
    }
    if n: nat :| Ancestor(v, k, n) == f {
      AncestorSame(m, v, k, n);
    }
  }

  /** Whether the name kept for k is right after a record, given whether it was before. */
  predicate RightAfter(m: Volume, r: Record, k: Key, right: bool) {
    if r.frn != k then right
    else if r.create && r.close then true
    else if r.renameNew && r.close && k in m then r.pfrn == m[k].parent || r.name == m[k].name
    else right
  }

  /** A create and a rename in place make the kept name right; a rename into another directory leaves it
      right only if the name did not change. */
  lemma NameStep(m: Volume, v: Volume, r: Record, k: Key, right: bool)
    requires SameShape(m, v) && (k in m ==> (right <==> m[k].name == v[k].name))
    ensures SameShape(Apply(m, r), Happen(v, r))
    ensures k in Apply(m, r) ==>
              k in Happen(v, r)
              && (Apply(m, r)[k].name == Happen(v, r)[k].name
                  <==> RightAfter(m, r, k, right))
  {
    hide Inside;
    forall j
      ensures Inside(m, j, r.frn) <==> Inside(v, j, r.frn)
    {
      InsideSame(m, v, j, r.frn);
    }
  }

  ghost predicate RightAfterAll(m: Volume, rs: seq<Record>, k: Key, right: bool)
    decreases |rs|
  {
    if rs == [] then right else RightAfterAll(Apply(m, rs[0]), rs[1..], k, RightAfter(m, rs[0], k, right))
  }

  /** After any records the kept volume differs from the real one in names at most, and the name of a live
      id is wrong exactly when its last create or rename was a rename into another directory that gave it
      a name other than the one kept. */
  lemma {:induction false} NamesAfter(m: Volume, v: Volume, rs: seq<Record>, k: Key, right: bool)
    requires SameShape(m, v) && (k in m ==> (right <==> m[k].name == v[k].name))
    ensures SameShape(Fold(m, rs), HappenAll(v, rs))
    ensures k in Fold(m, rs) ==>
              k in HappenAll(v, rs)
              && (Fold(m, rs)[k].name == HappenAll(v, rs)[k].name <==> RightAfterAll(m, rs, k, right))
    decreases |rs|
  {
    hide Apply, Happen, RightAfter;
    if rs != [] {
      NameStep(m, v, rs[0], k, right);
      NamesAfter(Apply(m, rs[0]), Happen(v, rs[0]), rs[1..], k, RightAfter(m, rs[0], k, right));
    }
  }

  /** Names do go wrong: file 7 is called a in directory 5, and is moved to directory 6 under the name b. */
  lemma MovedKeepsOldName(m: Volume, rs: seq<Record>, a: Name, b: Name, none: Attrs)
    requires m == map[5 := Node(0, true, a, none), 6 := Node(5, true, a, none), 7 := Node(5, false, a, none)]
    requires a != b
    requires rs == [Record(false, true, false, false, false, 7, 5, false, a, none),
                    Record(false, false, true, false, true, 7, 6, false, b, none)]
    ensures Run(m, (0, 0), rs) && 7 in Fold(m, rs) && 7 in HappenAll(m, rs)
    ensures Fold(m, rs)[7] == Node(6, false, a, none) && HappenAll(m, rs)[7] == Node(6, false, b, none)
  {
    forall n: nat
      ensures Ancestor(m, 6, n) != 7
    {
      assert n > 0 ==> Ancestor(m, 6, n) == Ancestor(m, 5, n - 1);
      assert n > 1 ==> Ancestor(m, 5, n - 1) == 0;
    }
    assert Apply(m, rs[0]) == m && Happen(m, rs[0]) == m;
    assert rs[1..][1..] == [];
    assert Fold(m, rs) == Fold(m, rs[1..]) == Apply(m, rs[1]);
    assert HappenAll(m, rs) == HappenAll(m, rs[1..]) == Happen(m, rs[1]);
    assert Run(m, (7, 5), rs[1..]);
  }

  // ---------- attributes, and what records leave alone ----------

  /** The record makes k. */
  predicate Makes(r: Record, k: Key) { r.create && r.close && r.frn == k }

  /** A live id has the attributes and the kind of its last create record, or those it started with. Renames
      and moves keep them, the type of the name's suffix included. */
  ghost predicate AttrsFrom(m: Volume, rs: seq<Record>, k: Key, node: Node) {
    || (exists i :: LastMakes(rs, k, i) && node.attrs == rs[i].attrs && node.dir == rs[i].dir)
    || (NoneMakes(rs, k, 0) && k in m && node.attrs == m[k].attrs && node.dir == m[k].dir)
  }

  predicate NoneMakes(rs: seq<Record>, k: Key, from: nat) {
    forall j :: from <= j < |rs| ==> !Makes(rs[j], k)
  }

  predicate LastMakes(rs: seq<Record>, k: Key, i: int) {
    0 <= i < |rs| && Makes(rs[i], k) && NoneMakes(rs, k, i + 1)
  }

  lemma {:induction false} AttrsAfter(m: Volume, rs: seq<Record>, k: Key)
    ensures k in Fold(m, rs) ==> AttrsFrom(m, rs, k, Fold(m, rs)[k])
    decreases |rs|
  {
    if rs != [] && k in Fold(m, rs) {
      AttrsAfter(Apply(m, rs[0]), rs[1..], k);
      AttrsStep(m, rs, k, Fold(m, rs)[k]);
    }
  }

  lemma AttrsStep(m: Volume, rs: seq<Record>, k: Key, node: Node)
    requires rs != [] && AttrsFrom(Apply(m, rs[0]), rs[1..], k, node)
    ensures AttrsFrom(m, rs, k, node)
  {
    var t := rs[1..];
    if i :| LastMakes(t, k, i) && node.attrs == t[i].attrs && node.dir == t[i].dir {
      forall j | i + 1 < j < |rs|
        ensures !Makes(rs[j], k)
      {
        assert rs[j] == t[j - 1];
      }
      assert LastMakes(rs, k, i + 1);
    } else {
      forall j | 0 < j < |rs|
        ensures !Makes(rs[j], k)
      {
        assert rs[j] == t[j - 1];
      }
      if Makes(rs[0], k) {
        assert LastMakes(rs, k, 0);
      }
    }
  }

  /** The records on a closed file. */
  function Closed(rs: seq<Record>): seq<Record> {
    if rs == [] then [] else (if rs[0].close then [rs[0]] else []) + Closed(rs[1..])
  }

  /** A record without the close bit changes nothing: it stands for a change that is still going on. */
  lemma {:induction false} ClosedMatter(m: Volume, rs: seq<Record>)
    ensures Fold(m, rs) == Fold(m, Closed(rs))
    decreases |rs|
  {
    if rs != [] {
      ClosedMatter(Apply(m, rs[0]), rs[1..]);
      if rs[0].close {
        assert Closed(rs)[0] == rs[0] && Closed(rs)[1..] == Closed(rs[1..]);
      } else {
        assert Closed(rs) == Closed(rs[1..]) && Apply(m, rs[0]) == m;
      }
    }
  }

  /** A delete undoes a create. */
  lemma DeleteUndoesCreate(m: Volume, c: Record, d: Record)
    requires c.create && c.close && c.frn !in m && c.frn != 0 && forall k :: k in m ==> m[k].parent != c.frn
    requires d.delete && d.close && !d.create && !d.renameNew && d.frn == c.frn
    ensures Fold(m, [c, d]) == m
  {
    var after := Apply(m, c);
    forall k | k in after
      ensures Inside(after, k, c.frn) <==> k == c.frn
    {
      assert Ancestor(after, c.frn, 0) == c.frn;
      if n: nat :| k in m && Ancestor(after, k, n) == c.frn {
        ElsewhereStays(after, k, c.frn, n);
      }
    }
    assert [c, d][1..] == [d] && [d][1..] == [];
    assert Fold(m, [c, d]) == Fold(after, [d]) == Apply(after, d);
    assert Apply(after, d) == WithoutInside(after, c.frn) == m;
  }

  lemma {:induction false} ElsewhereStays(m: Volume, k: Key, f: Key, n: nat)
    requires k != f && f != 0 && forall j :: j in m && j != f ==> m[j].parent != f
    ensures Ancestor(m, k, n) != f
    decreases n
  {
    if n > 0 && k in m && m[k].parent != 0 {
      ElsewhereStays(m, m[k].parent, f, n - 1);
    }
  }

  // ---------- the volume that a tree in memory shows ----------

  function NodeOf(heap: Heap, p: Ptr): Node
    requires p in heap
  {
    var parent := if Attached(heap, p) && heap[p].up.ptr in heap then heap[heap[p].up.ptr].frn else 0;
    Node(parent, heap[p].dir, heap[p].name, heap[p].attrs)
  }

  ghost predicate HasId(heap: Heap, k: Key) {
    exists p :: p in heap && heap[p].frn == k
  }

  ghost predicate Shows(heap: Heap, m: Volume) {
    && (forall p :: p in heap ==> heap[p].frn in m && m[heap[p].frn] == NodeOf(heap, p))
    && (forall k :: k in m ==> HasId(heap, k))
  }

  lemma ShownParent(heap: Heap, rank: map<Ptr, nat>, m: Volume, p: Ptr)
    requires Linked(heap) && Ranked(heap, rank) && UniqueIds(heap) && Shows(heap, m) && p in heap
    ensures heap[p].frn in m && m[heap[p].frn].dir == heap[p].dir
    ensures Attached(heap, p) ==> heap[p].up.ptr in heap && m[heap[p].frn].parent == heap[heap[p].up.ptr].frn != 0
    ensures !Attached(heap, p) ==> m[heap[p].frn].parent == 0
  {
    if Attached(heap, p) {
      AttachedParent(heap, rank, p);
    }
  }

  /** Climbing in memory and climbing in the volume agree. */
  lemma {:induction false} ClimbShown(heap: Heap, rank: map<Ptr, nat>, m: Volume, p: Ptr, n: nat)
    requires Linked(heap) && Ranked(heap, rank) && UniqueIds(heap) && Shows(heap, m) && p in heap
    ensures var a := Climb(heap, p, n); Ancestor(m, heap[p].frn, n) == if a in heap then heap[a].frn else 0
    decreases n
  {
    if n > 0 {
      ShownParent(heap, rank, m, p);
      if Attached(heap, p) {
        ClimbShown(heap, rank, m, heap[p].up.ptr, n - 1);
      }
    }
  }

  lemma UnderShown(heap: Heap, rank: map<Ptr, nat>, m: Volume, p: Ptr, f: Ptr)
    requires Linked(heap) && Ranked(heap, rank) && UniqueIds(heap) && Shows(heap, m) && p in heap && f in heap
    ensures Under(heap, p, f) <==> Inside(m, heap[p].frn, heap[f].frn)
  {
    hide Linked, Ranked, Shows;
    if n: nat :| Climb(heap, p, n) == f {
      ClimbShown(heap, rank, m, p, n);
    }
    if n: nat :| Ancestor(m, heap[p].frn, n) == heap[f].frn {
      ClimbShown(heap, rank, m, p, n);
      assert heap[f].frn != 0;
      assert Climb(heap, p, n) == f;
    }
  }

  /** The id-to-parent map of a tree in memory. */
  ghost function VolumeOf(heap: Heap): Volume
    requires UniqueIds(heap)
  {
    map p | p in heap :: heap[p].frn := NodeOf(heap, p)
  }

  /** A tree shows its own id-to-parent map and no other: so after a replay that map is the fold. */
  lemma ShowsItsVolume(heap: Heap, m: Volume)
    requires UniqueIds(heap)
    ensures Shows(heap, m) <==> m == VolumeOf(heap)
  {
    hide NodeOf;
    var v := VolumeOf(heap);
    forall k | k in v
      ensures HasId(heap, k)
    {
    }
    assert Shows(heap, v);
    if Shows(heap, m) {
      forall k
        ensures k in m <==> k in v
        ensures k in m ==> m[k] == v[k]
      {
        if HasId(heap, k) {
          var p :| p in heap && heap[p].frn == k;
        }
      }
    }
  }

  // ---------- each edit of the tree is the edit of the volume ----------

  /** One entry of `after` is shown by m' as it should. */
  ghost predicate NodeShown(after: Heap, m': Volume, q: Ptr) {
    q in after && after[q].frn in m' && m'[after[q].frn] == NodeOf(after, q)
  }

  lemma ShowsBy(after: Heap, m': Volume)
    requires forall q :: q in after ==> NodeShown(after, m', q)
    requires forall k :: k in m' ==> HasId(after, k)
    ensures Shows(after, m')
  {
  }

  /** What is shared by the edits below: a sound tree that shows the volume m. */
  ghost predicate Mirror(heap: Heap, rank: map<Ptr, nat>, m: Volume) {
    Linked(heap) && Ranked(heap, rank) && UniqueIds(heap) && Shows(heap, m)
  }

  lemma MirrorAt(heap: Heap, rank: map<Ptr, nat>, m: Volume, p: Ptr)
    requires Mirror(heap, rank, m) && p in heap
    ensures p != 0 && heap[p].frn != 0 && heap[p].frn in m && m[heap[p].frn] == NodeOf(heap, p)
    ensures Attached(heap, p) ==> heap[p].up.ptr in heap && heap[p].up.ptr != p
    ensures forall q :: q in heap && heap[q].frn == heap[p].frn ==> q == p
  {
    ShownParent(heap, rank, m, p);
    if Attached(heap, p) {
      AttachedParent(heap, rank, p);
    }
  }

  lemma HolderOf(heap: Heap, rank: map<Ptr, nat>, m: Volume, k: Key) returns (q: Ptr)
    requires Mirror(heap, rank, m) && k in m
    ensures q in heap && heap[q].frn == k
  {
    assert HasId(heap, k);
    q :| q in heap && heap[q].frn == k;
  }

  lemma AddedShows(heap: Heap, rank: map<Ptr, nat>, m: Volume, p: Ptr, parent: Ptr, e: Entry)
    requires Mirror(heap, rank, m) && p !in heap && p != 0 && parent in heap && e.frn !in m
    ensures Shows(Link(heap[p := e], parent, p), m[e.frn := Node(heap[parent].frn, e.dir, e.name, e.attrs)])
  {
    hide Mirror, NodeShown, Shows, NodeOf, HasId;
    var after, m' := Link(heap[p := e], parent, p), m[e.frn := Node(heap[parent].frn, e.dir, e.name, e.attrs)];
    MirrorAt(heap, rank, m, parent);
    forall q | q in after
      ensures NodeShown(after, m', q)
    {
      AddedNode(heap, rank, m, p, parent, e, q);
    }
    forall k | k in m'
      ensures HasId(after, k)
    {
      if k == e.frn {
        Holds(after, p, k);
      } else {
        var q := HolderOf(heap, rank, m, k);
        Holds(after, q, k);
      }
    }
    ShowsBy(after, m');
  }

  lemma Holds(after: Heap, q: Ptr, k: Key)
    requires q in after && after[q].frn == k
    ensures HasId(after, k)
  {
  }

  lemma AddedNode(heap: Heap, rank: map<Ptr, nat>, m: Volume, p: Ptr, parent: Ptr, e: Entry, q: Ptr)
    requires Mirror(heap, rank, m) && p !in heap && p != 0 && parent in heap && e.frn !in m
    requires q in Link(heap[p := e], parent, p)
    ensures NodeShown(Link(heap[p := e], parent, p), m[e.frn := Node(heap[parent].frn, e.dir, e.name, e.attrs)], q)
  {
    hide Mirror;
    MirrorAt(heap, rank, m, parent);
    if q != p {
      MirrorAt(heap, rank, m, q);
    }
  }

  lemma MovedShows(heap: Heap, rank: map<Ptr, nat>, m: Volume, f: Ptr, pnew: Ptr)
    requires Mirror(heap, rank, m) && Attached(heap, f) && heap[f].up.ptr in heap && pnew in heap
    ensures heap[f].frn in m
    ensures Shows(Moved(heap, f, pnew), m[heap[f].frn := m[heap[f].frn].(parent := heap[pnew].frn)])
  {
    hide Mirror, NodeShown, Shows, NodeOf, HasId, Moved;
    MirrorAt(heap, rank, m, f);
    MovedKeeps(heap, f, pnew);
    var after, m' := Moved(heap, f, pnew), m[heap[f].frn := m[heap[f].frn].(parent := heap[pnew].frn)];
    forall q | q in after
      ensures NodeShown(after, m', q)
    {
      MovedNode(heap, rank, m, f, pnew, q);
    }
    forall k | k in m'
      ensures HasId(after, k)
    {
      var q := HolderOf(heap, rank, m, k);
      Holds(after, q, k);
    }
    ShowsBy(after, m');
  }

  lemma MovedNode(heap: Heap, rank: map<Ptr, nat>, m: Volume, f: Ptr, pnew: Ptr, q: Ptr)
    requires Mirror(heap, rank, m) && Attached(heap, f) && heap[f].up.ptr in heap && pnew in heap
    requires q in heap
    ensures heap[f].frn in m
    ensures NodeShown(Moved(heap, f, pnew), m[heap[f].frn := m[heap[f].frn].(parent := heap[pnew].frn)], q)
  {
    hide Mirror, Moved;
    MovedKeeps(heap, f, pnew);
    MirrorAt(heap, rank, m, f);
    MirrorAt(heap, rank, m, pnew);
    MirrorAt(heap, rank, m, q);
  }

  lemma RenamedShows(heap: Heap, rank: map<Ptr, nat>, m: Volume, f: Ptr, ret: Ptr, name: Name)
    requires Mirror(heap, rank, m) && Attached(heap, f) && heap[f].up.ptr in heap && ret !in heap && ret != 0
    ensures heap[f].frn in m
    ensures Shows(Renamed(heap, f, ret, name), m[heap[f].frn := m[heap[f].frn].(name := name)])
  {
    hide Mirror, NodeShown, Shows, NodeOf, HasId, Renamed;
    MirrorAt(heap, rank, m, f);
    RenamedKeeps(heap, f, ret, name);
    var after, m' := Renamed(heap, f, ret, name), m[heap[f].frn := m[heap[f].frn].(name := name)];
    forall q | q in after
      ensures NodeShown(after, m', q)
    {
      RenamedNode(heap, rank, m, f, ret, name, q);
    }
    forall k | k in m'
      ensures HasId(after, k)
    {
      var q := HolderOf(heap, rank, m, k);
      Holds(after, if q == f then ret else q, k);
    }
    ShowsBy(after, m');
  }

  lemma ParentNotChild(heap: Heap, rank: map<Ptr, nat>, m: Volume, f: Ptr)
    requires Mirror(heap, rank, m) && Attached(heap, f)
    ensures heap[f].up.ptr in heap && heap[heap[f].up.ptr].up != Parent(f)
  {
    AttachedParent(heap, rank, f);
  }

  lemma RenamedNode(heap: Heap, rank: map<Ptr, nat>, m: Volume, f: Ptr, ret: Ptr, name: Name, q: Ptr)
    requires Mirror(heap, rank, m) && Attached(heap, f) && heap[f].up.ptr in heap && ret !in heap && ret != 0
    requires q in Renamed(heap, f, ret, name)
    ensures heap[f].frn in m
    ensures NodeShown(Renamed(heap, f, ret, name), m[heap[f].frn := m[heap[f].frn].(name := name)], q)
  {
    hide Mirror;
    ParentNotChild(heap, rank, m, f);
    MirrorAt(heap, rank, m, f);
    MirrorAt(heap, rank, m, if q == ret then f else q);
  }

  ghost function WithoutInside(m: Volume, f: Key): Volume {
    map k | k in m && !Inside(m, k, f) :: m[k]
  }

  lemma DeletedShows(heap: Heap, rank: map<Ptr, nat>, m: Volume, f: Ptr)
    requires Mirror(heap, rank, m) && Attached(heap, f) && heap[f].up.ptr in heap
    ensures Shows(Deleted(heap, f), WithoutInside(m, heap[f].frn))
  {
    hide Mirror, NodeShown, Shows, NodeOf, HasId, Inside, Under;
    var after, m' := Deleted(heap, f), WithoutInside(m, heap[f].frn);
    forall q | q in after
      ensures NodeShown(after, m', q)
    {
      DeletedNode(heap, rank, m, f, q);
    }
    forall k | k in m'
      ensures HasId(after, k)
    {
      var q := HolderOf(heap, rank, m, k);
      MirrorUnder(heap, rank, m, q, f);
      Holds(after, q, k);
    }
    ShowsBy(after, m');
  }

  lemma MirrorUnder(heap: Heap, rank: map<Ptr, nat>, m: Volume, p: Ptr, f: Ptr)
    requires Mirror(heap, rank, m) && p in heap && f in heap
    ensures Under(heap, p, f) <==> Inside(m, heap[p].frn, heap[f].frn)
  {
    hide Under, Inside, Linked, Ranked, UniqueIds, Shows;
    UnderShown(heap, rank, m, p, f);
  }

  lemma DeletedNode(heap: Heap, rank: map<Ptr, nat>, m: Volume, f: Ptr, q: Ptr)
    requires Mirror(heap, rank, m) && Attached(heap, f) && heap[f].up.ptr in heap && q in Deleted(heap, f)
    ensures NodeShown(Deleted(heap, f), WithoutInside(m, heap[f].frn), q)
  {
    hide Mirror, Under, Inside;
    MirrorAt(heap, rank, m, f);
    MirrorAt(heap, rank, m, q);
    MirrorUnder(heap, rank, m, q, f);
    UnderUnfolds(heap, q, f);
  }

  // ---------- replay ----------

  /** A volume and its mirror, with a map that finds every live directory. */
  ghost predicate Synced(ix: Index, m: Volume)
    reads ix
  {
    Sound(ix.heap, ix.rank, ix.root, ix.allFileCount) && MapOk(ix.heap, ix.dirMap) && Shows(ix.heap, m)
  }

  lemma SyncedMirror(ix: Index, m: Volume)
    requires Synced(ix, m)
    ensures Mirror(ix.heap, ix.rank, m) && MapOk(ix.heap, ix.dirMap)
    ensures Sound(ix.heap, ix.rank, ix.root, ix.allFileCount) && Linked(ix.heap)
  {
  }

  lemma MirrorSynced(ix: Index, m: Volume)
    requires Sound(ix.heap, ix.rank, ix.root, ix.allFileCount) && MapOk(ix.heap, ix.dirMap) && Shows(ix.heap, m)
    ensures Synced(ix, m)
  {
  }

  /** A live directory of the volume is found, and is the live entry with that id. */
  lemma DirFound(ix: Index, m: Volume, k: Key)
    requires Synced(ix, m) && k in m && m[k].dir
    ensures var p := ix.FindDir(k); p != 0 && p in ix.heap && ix.heap[p].dir && ix.heap[p].frn == k
  {
    hide Linked, Ranked, Under;
    var p := HolderOf(ix.heap, ix.rank, m, k);
    MirrorAt(ix.heap, ix.rank, m, p);
  }

  /** A live id with a parent has an attached entry below the entry of that parent. */
  lemma FileFound(ix: Index, m: Volume, k: Key) returns (p: Ptr)
    requires Synced(ix, m) && k in m && m[k].parent != 0
    ensures p != 0 && p in ix.heap && ix.heap[p].frn == k && Attached(ix.heap, p)
    ensures ix.heap[p].up == Parent(ix.FindDir(m[k].parent))
    ensures ix.FindDir(m[k].parent) != 0 && ix.FindDir(m[k].parent) in ix.heap && ix.heap[p].dir == m[k].dir
    ensures ix.heap[ix.FindDir(m[k].parent)].frn == m[k].parent
    ensures forall q :: q in ix.heap && ix.heap[q].frn == k ==> q == p
  {
    hide Under;
    p := HolderOf(ix.heap, ix.rank, m, k);
    MirrorAt(ix.heap, ix.rank, m, p);
    AttachedParent(ix.heap, ix.rank, p);
    MirrorAt(ix.heap, ix.rank, m, ix.heap[p].up.ptr);
  }

  class Monitor {
    const index: Index
    var oldFrn: Key    // old_frn
    var oldPfrn: Key   // old_pfrn

    constructor (index: Index)
      ensures this.index == index && oldFrn == 0 && oldPfrn == 0
    {
      this.index, oldFrn, oldPfrn := index, 0, 0;
    }

    /** genFileEntryOne. */
    method GenFileEntryOne(r: Record, ghost m: Volume)
      requires Synced(index, m) && r.frn != 0 && r.frn !in m && r.pfrn in m && m[r.pfrn].dir
      modifies index
      ensures Synced(index, m[r.frn := Node(r.pfrn, r.dir, r.name, r.attrs)])
    {
      hide *;
      SyncedMirror(index, m);
      DirFound(index, m, r.pfrn);
      IdIsNew(index, m, r.frn);
      ghost var before, ranks := index.heap, index.rank;
      ghost var parent := index.FindDir(r.pfrn);
      var file := index.InitFileEntry(r.frn, r.pfrn, r.dir, r.name, r.attrs);
      DirStays(index, parent, r.pfrn, file);
      var attached := index.AttachParent(file);
      AddedShows(before, ranks, m, file, parent, Entry(r.frn, ParentKey(r.pfrn), [], r.dir, r.name, r.attrs));
      MirrorSynced(index, m[r.frn := Node(r.pfrn, r.dir, r.name, r.attrs)]);
    }

    /** updateFileEntry: one journal record. */
    method UpdateFileEntry(r: Record, ghost m: Volume)
      requires Synced(index, m) && Follows(m, (oldFrn, oldPfrn), r)
      modifies this, index
      ensures Synced(index, Apply(m, r)) && (oldFrn, oldPfrn) == Pending(old((oldFrn, oldPfrn)), r)
    {
      hide *;
      RecordCase(m, (oldFrn, oldPfrn), r);
      SyncedMirror(index, m);
      if r.create && r.close {
        GenFileEntryOne(r, m);
      } else if r.renameOld {
        oldFrn, oldPfrn := r.frn, r.pfrn;
      } else if r.renameNew && r.close {
        ghost var p := FileFound(index, m, r.frn);
        if oldPfrn == r.pfrn {
          var pmodify := index.FindFile(oldFrn, oldPfrn);
          ghost var before, ranks := index.heap, index.rank;
          ghost var ret := index.RenameFile(pmodify, r.name);
          RenamedShows(before, ranks, m, p, ret, r.name);
        } else {
          DirFound(index, m, r.pfrn);
          var pnew := index.FindDir(r.pfrn);
          var file := index.FindFile(oldFrn, oldPfrn);
          MirrorUnder(index.heap, index.rank, m, pnew, p);
          ghost var before, ranks := index.heap, index.rank;
          index.MoveFile(file, pnew);
          MovedShows(before, ranks, m, p, pnew);
        }
        MirrorSynced(index, Apply(m, r));
      } else if r.delete && r.close {
        ghost var p := FileFound(index, m, r.frn);
        var file := index.FindFile(r.frn, r.pfrn);
        ghost var before, ranks := index.heap, index.rank;
        AttachedIsParent(before, p);
        if file != 0 {
          index.DeleteFile(file);
          DeletedShows(before, ranks, m, p);
        }
        MirrorSynced(index, Apply(m, r));
      }
    }

    /** Replaying a whole journal: the tree in memory shows the volume that the records leave. */
    method Replay(rs: seq<Record>, ghost m: Volume)
      requires Synced(index, m) && Run(m, (oldFrn, oldPfrn), rs)
      modifies this, index
      ensures Synced(index, Fold(m, rs))
      ensures forall p :: p in index.heap ==> AttrsFrom(m, rs, index.heap[p].frn, NodeOf(index.heap, p))
    {
      hide *;
      var k := 0;
      ghost var now := m;
      assert rs[0..] == rs;
      while k < |rs|
        invariant 0 <= k <= |rs| && Synced(index, now)
        invariant Run(now, (oldFrn, oldPfrn), rs[k..]) && Fold(m, rs) == Fold(now, rs[k..])
      {
        RunStep(now, (oldFrn, oldPfrn), rs, k);
        UpdateFileEntry(rs[k], now);
        now := Apply(now, rs[k]);
        k := k + 1;
      }
      FoldDone(now, rs[k..]);
      AttrsShown(index, m, rs);
    }
  }

  lemma AttrsShown(ix: Index, m: Volume, rs: seq<Record>)
    requires Synced(ix, Fold(m, rs))
    ensures forall p :: p in ix.heap ==> AttrsFrom(m, rs, ix.heap[p].frn, NodeOf(ix.heap, p))
  {
    hide AttrsFrom, Linked, Ranked;
    forall p | p in ix.heap
      ensures AttrsFrom(m, rs, ix.heap[p].frn, NodeOf(ix.heap, p))
    {
      AttrsAfter(m, rs, ix.heap[p].frn);
    }
  }

  lemma RunStep(m: Volume, old_: (Key, Key), rs: seq<Record>, k: nat)
    requires k < |rs| && Run(m, old_, rs[k..])
    ensures Follows(m, old_, rs[k]) && Run(Apply(m, rs[k]), Pending(old_, rs[k]), rs[k + 1..])
    ensures Fold(m, rs[k..]) == Fold(Apply(m, rs[k]), rs[k + 1..])
  {
    assert rs[k..][0] == rs[k] && rs[k..][1..] == rs[k + 1..];
  }

  lemma FoldDone(m: Volume, rs: seq<Record>)
    requires rs == []
    ensures Fold(m, rs) == m
  {
  }

  lemma IdIsNew(ix: Index, m: Volume, k: Key)
    requires Synced(ix, m) && k !in m && k != 0
    ensures NewId(ix.heap, k)
  {
  }

  /** After the new entry is made, its directory is found as before, and does not hang below it. */
  lemma DirStays(ix: Index, parent: Ptr, k: Key, file: Ptr)
    requires Sound(ix.heap, ix.rank, ix.root, ix.allFileCount) && MapOk(ix.heap, ix.dirMap)
    requires parent in ix.heap && ix.heap[parent].dir && ix.heap[parent].frn == k && parent != file
    requires file in ix.heap && ix.heap[file].up == ParentKey(k) && ix.heap[file].children == []
    ensures ix.FindDir(k) == parent && parent != 0 && CanAttach(ix.heap, parent, file)
  {
    hide Under;
    FNotNull(ix.heap, parent);
    if Under(ix.heap, parent, file) {
      var c := UnderSomeChild(ix.heap, ix.rank, parent, file);
    }
  }

  lemma AttachedIsParent(heap: Heap, p: Ptr)
    requires Attached(heap, p)
    ensures p in heap && heap[p].up.Parent?
  {
  }

  /** What a record that can follow asks for, branch by branch. */
  lemma RecordCase(m: Volume, old_: (Key, Key), r: Record)
    requires Follows(m, old_, r)
    ensures r.create && r.close ==>
              && r.frn != 0 && r.frn !in m && r.pfrn in m && m[r.pfrn].dir && !r.renameOld
              && Apply(m, r) == m[r.frn := Node(r.pfrn, r.dir, r.name, r.attrs)]
    ensures r.renameOld ==> Apply(m, r) == m
    ensures Pending(old_, r) == if r.renameOld then (r.frn, r.pfrn) else old_
    ensures r.renameNew && r.close ==>
              && r.frn in m && m[r.frn].parent != 0 && old_.0 == r.frn && old_.1 == m[r.frn].parent && !r.renameOld
              && (r.pfrn == m[r.frn].parent ==>
                    !m[r.frn].dir && Apply(m, r) == m[r.frn := m[r.frn].(name := r.name)])
              && (r.pfrn != m[r.frn].parent ==>
                    && r.pfrn in m && m[r.pfrn].dir && !Inside(m, r.pfrn, r.frn)
                    && Apply(m, r) == m[r.frn := m[r.frn].(parent := r.pfrn)])
    ensures r.delete && r.close ==>
              && r.frn in m && m[r.frn].parent == r.pfrn != 0 && Apply(m, r) == WithoutInside(m, r.frn)
    ensures !(r.create && r.close) && !(r.renameNew && r.close) && !(r.delete && r.close) ==> Apply(m, r) == m
  {
    hide Inside, WithoutInside;
  }
}
