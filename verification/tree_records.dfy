/** The records of an index file as a tree, and what the preorder says about it: ids, parents
    before children, and which records name which parent. */
module TreeRecords {
  import opened FileTree
  import opened BuildDir
  import opened IndexStore

  /** What a saved tree keeps of an entry. */
  datatype Tree = Node(id: Key, dir: bool, name: Name, attrs: Attrs, kids: seq<Tree>)

  /** The records in the order of FilesIterate; pid is the parent's id, 0 for the root. */
  function Recs(t: Tree, pid: Key): (rs: seq<Rec>)
    ensures rs != [] && rs[0] == Rec(t.id, pid, t.dir, t.name, t.attrs)
    decreases t
  {
    [Rec(t.id, pid, t.dir, t.name, t.attrs)] + RecsAll(t.kids, t.id)
  }

  function RecsAll(ts: seq<Tree>, pid: Key): seq<Rec>
    decreases ts
  {
    if ts == [] then [] else Recs(ts[0], pid) + RecsAll(ts[1..], pid)
  }

  function Ids(t: Tree): set<Key>
    decreases t
  {
    {t.id} + IdsAll(t.kids)
  }

  function IdsAll(ts: seq<Tree>): set<Key>
    decreases ts
  {
    if ts == [] then {} else Ids(ts[0]) + IdsAll(ts[1..])
  }

  /** No id twice, no id 0, and only directories have children. */
  ghost predicate Proper(t: Tree)
    decreases t
  {
    t.id != 0 && t.id !in IdsAll(t.kids) && (!t.dir ==> t.kids == []) && ProperAll(t.kids)
  }

  ghost predicate ProperAll(ts: seq<Tree>)
    decreases ts
  {
    ts == [] || (Proper(ts[0]) && ProperAll(ts[1..]) && Ids(ts[0]) !! IdsAll(ts[1..]))
  }

  lemma {:induction false} RecsIds(t: Tree, pid: Key)
    ensures forall r :: r in Recs(t, pid) ==> r.frn in Ids(t)
    decreases t
  {
    RecsAllIds(t.kids, t.id);
  }

  lemma {:induction false} RecsAllIds(ts: seq<Tree>, pid: Key)
    ensures forall r :: r in RecsAll(ts, pid) ==> r.frn in IdsAll(ts)
    decreases ts
  {
    if ts != [] {
      RecsIds(ts[0], pid);
      RecsAllIds(ts[1..], pid);
    }
  }

  // ---------- no id twice ----------

  ghost predicate DistinctIds(rs: seq<Rec>) {
    forall i, j :: 0 <= i < j < |rs| ==> rs[i].frn != rs[j].frn
  }

  lemma {:induction false} RecsDistinct(t: Tree, pid: Key)
    requires Proper(t)
    ensures DistinctIds(Recs(t, pid)) && forall r :: r in Recs(t, pid) ==> r.frn != 0
    decreases t
  {
    RecsAllDistinct(t.kids, t.id);
    RecsAllIds(t.kids, t.id);
    assert forall r :: r in RecsAll(t.kids, t.id) ==> r.frn in IdsAll(t.kids);
  }

  lemma {:induction false} RecsAllDistinct(ts: seq<Tree>, pid: Key)
    requires ProperAll(ts)
    ensures DistinctIds(RecsAll(ts, pid)) && forall r :: r in RecsAll(ts, pid) ==> r.frn != 0
    decreases ts
  {
    if ts != [] {
      RecsDistinct(ts[0], pid);
      RecsAllDistinct(ts[1..], pid);
      RecsIds(ts[0], pid);
      RecsAllIds(ts[1..], pid);
      DistinctConcat(Recs(ts[0], pid), RecsAll(ts[1..], pid), Ids(ts[0]), IdsAll(ts[1..]));
    }
  }

  lemma DistinctConcat(a: seq<Rec>, b: seq<Rec>, A: set<Key>, B: set<Key>)
    requires DistinctIds(a) && DistinctIds(b) && A !! B
    requires (forall r :: r in a ==> r.frn in A) && forall r :: r in b ==> r.frn in B
    ensures DistinctIds(a + b)
  {
    forall i, j | 0 <= i < j < |a + b|
      ensures (a + b)[i].frn != (a + b)[j].frn
    {
      if i < |a| <= j {
        assert a[i] in a && b[j - |a|] in b;
      }
    }
  }

  // ---------- parents come first ----------

  /** Record i names a directory that stands before it. */
  ghost predicate AfterParent(rs: seq<Rec>, i: int) {
    0 <= i < |rs| && exists j :: 0 <= j < i && rs[j].frn == rs[i].parent && rs[j].dir
  }

  lemma {:induction false} ParentsFirst(t: Tree, pid: Key)
    requires Proper(t)
    ensures forall i :: 0 < i < |Recs(t, pid)| ==> AfterParent(Recs(t, pid), i)
    decreases t
  {
    var first, rest := [Rec(t.id, pid, t.dir, t.name, t.attrs)], RecsAll(t.kids, t.id);
    ParentsFirstAll(t.kids, t.id);
    forall i | 0 < i < |Recs(t, pid)|
      ensures AfterParent(first + rest, i)
    {
      if rest[i - 1].parent == t.id {
        assert (first + rest)[0].frn == t.id;
      } else {
        AfterParentLater(first, rest, i - 1);
      }
    }
  }

  lemma {:induction false} ParentsFirstAll(ts: seq<Tree>, pid: Key)
    requires ProperAll(ts)
    ensures forall i :: 0 <= i < |RecsAll(ts, pid)| ==>
              RecsAll(ts, pid)[i].parent == pid || AfterParent(RecsAll(ts, pid), i)
    decreases ts
  {
    if ts != [] {
      var a: seq<Rec>, b: seq<Rec> := Recs(ts[0], pid), RecsAll(ts[1..], pid);
      ParentsFirst(ts[0], pid);
      ParentsFirstAll(ts[1..], pid);
      var both: seq<Rec> := a + b;
      forall i | 0 <= i < |both|
        ensures both[i].parent == pid || AfterParent(both, i)
      {
        if i < |a| {
          if i > 0 {
            AfterParentSooner(a, b, i);
          }
        } else if b[i - |a|].parent != pid {
          AfterParentLater(a, b, i - |a|);
        }
      }
    }
  }

  lemma AfterParentLater(a: seq<Rec>, b: seq<Rec>, i: int)
    requires AfterParent(b, i)
    ensures AfterParent(a + b, |a| + i)
  {
    var j :| 0 <= j < i && b[j].frn == b[i].parent && b[j].dir;
    assert (a + b)[|a| + j] == b[j];
  }

  lemma AfterParentSooner(a: seq<Rec>, b: seq<Rec>, i: int)
    requires AfterParent(a, i)
    ensures AfterParent(a + b, i)
  {
    var j :| 0 <= j < i && a[j].frn == a[i].parent && a[j].dir;
    assert (a + b)[j] == a[j];
  }

  // ---------- who names whom ----------

  /** The entry that readfile makes of a record. */
  function EntryOf(r: Rec): Entry {
    Entry(r.frn, ParentKey(r.parent), [], r.dir, r.name, r.attrs)
  }

  /** The list holds the entries made of the records, in order. */
  ghost predicate Match(heap: Heap, list: seq<Ptr>, rs: seq<Rec>) {
    |list| == |rs| && forall i :: 0 <= i < |list| ==> list[i] in heap && heap[list[i]] == EntryOf(rs[i])
  }

  lemma MatchSplit(heap: Heap, list: seq<Ptr>, a: seq<Rec>, b: seq<Rec>)
    requires Match(heap, list, a + b)
    ensures |a| <= |list| && list == list[..|a|] + list[|a|..]
    ensures Match(heap, list[..|a|], a) && Match(heap, list[|a|..], b)
  {
    forall i | 0 <= i < |b|
      ensures list[|a| + i] in heap && heap[list[|a| + i]] == EntryOf(b[i])
    {
      assert (a + b)[|a| + i] == b[i];
    }
    forall i | 0 <= i < |a|
      ensures list[i] in heap && heap[list[i]] == EntryOf(a[i])
    {
      assert (a + b)[i] == a[i];
    }
  }

  lemma {:induction false} KidsConcat(heap: Heap, a: seq<Ptr>, b: seq<Ptr>, id: Key)
    ensures KidsOf(heap, a + b, id) == KidsOf(heap, a, id) + KidsOf(heap, b, id)
  {
    if b == [] {
      assert a + b == a;
    } else {
      assert (a + b)[..|a + b| - 1] == a + b[..|b| - 1];
      KidsConcat(heap, a, b[..|b| - 1], id);
    }
  }

  lemma KidsOne(heap: Heap, p: Ptr, id: Key)
    ensures KidsOf(heap, [p], id) == if p in heap && heap[p].up == ParentKey(id) then [p] else []
  {
    assert [p][..0] == [];
  }

  /** The roots of the subtrees laid out in the list. */
  function Heads(ts: seq<Tree>, pid: Key, list: seq<Ptr>): (hs: seq<Ptr>)
    requires |list| == |RecsAll(ts, pid)|
    ensures |hs| == |ts|
  {
    if ts == [] then [] else [list[0]] + Heads(ts[1..], pid, list[|Recs(ts[0], pid)|..])
  }

  /** Only the top of a subtree names its parent; below it, records name records of the subtree. */
  lemma {:induction false} KidsOfRecs(heap: Heap, list: seq<Ptr>, t: Tree, pid: Key, id: Key)
    requires Match(heap, list, Recs(t, pid)) && Proper(t) && id !in Ids(t)
    ensures KidsOf(heap, list, id) == if id == pid then [list[0]] else []
    decreases t
  {
    var first, rest := [Rec(t.id, pid, t.dir, t.name, t.attrs)], RecsAll(t.kids, t.id);
    MatchSplit(heap, list, first, rest);
    KidsConcat(heap, list[..1], list[1..], id);
    KidsOne(heap, list[0], id);
    KidsOfRecsAll(heap, list[1..], t.kids, t.id, id);
    assert list[..1] == [list[0]];
  }

  lemma {:induction false} KidsOfRecsAll(heap: Heap, list: seq<Ptr>, ts: seq<Tree>, pid: Key, id: Key)
    requires Match(heap, list, RecsAll(ts, pid)) && ProperAll(ts) && id !in IdsAll(ts)
    ensures KidsOf(heap, list, id) == if id == pid then Heads(ts, pid, list) else []
    decreases ts
  {
    if ts != [] {
      var n := |Recs(ts[0], pid)|;
      MatchSplit(heap, list, Recs(ts[0], pid), RecsAll(ts[1..], pid));
      KidsConcat(heap, list[..n], list[n..], id);
      KidsOfRecs(heap, list[..n], ts[0], pid, id);
      KidsOfRecsAll(heap, list[n..], ts[1..], pid, id);
    }
  }
}
