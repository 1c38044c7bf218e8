/** A saved tree read back: the entries that readfile lists, once build_dir has run, hang together
    as the tree whose records were in the file. */
module IndexRoundTrip {
  import opened BuildDir
  import opened FileEdits
  import opened FileTree
  import opened IndexStore
  import opened LoadedList
  import opened TreeRecords

  /** The id under which an entry is saved: its own on NTFS, else its address. */
  function KeyOf(heap: Heap, ntfs: bool, p: Ptr): Key
    requires p in heap
  {
    if ntfs then heap[p].frn else p
  }

  /** The entry at p is the top of tree t. */
  ghost predicate Represents(heap: Heap, ntfs: bool, p: Ptr, t: Tree)
    decreases t
  {
    && p in heap && KeyOf(heap, ntfs, p) == t.id
    && heap[p].dir == t.dir && heap[p].name == t.name && heap[p].attrs == t.attrs
    && RepresentsAll(heap, ntfs, heap[p].children, t.kids)
  }

  ghost predicate RepresentsAll(heap: Heap, ntfs: bool, ps: seq<Ptr>, ts: seq<Tree>)
    decreases ts
  {
    |ps| == |ts| && (ts == [] || (Represents(heap, ntfs, ps[0], ts[0]) && RepresentsAll(heap, ntfs, ps[1..], ts[1..])))
  }

  // ---------- what build_dir makes of it ----------

  /** The listed entries, each with the entries of `whole` that name it as its parent. */
  ghost predicate Gathered(heap: Heap, whole: seq<Ptr>, after: Heap, list: seq<Ptr>) {
    forall p :: p in list ==>
      && p in heap && p in after && after[p].children == KidsOf(heap, whole, heap[p].frn)
      && after[p].frn == heap[p].frn && after[p].dir == heap[p].dir
      && after[p].name == heap[p].name && after[p].attrs == heap[p].attrs
  }

  /** No entry of the list names an id of S. */
  ghost predicate Silent(heap: Heap, list: seq<Ptr>, S: set<Key>) {
    forall id :: id in S ==> KidsOf(heap, list, id) == []
  }

  lemma SilentConcat(heap: Heap, a: seq<Ptr>, b: seq<Ptr>, S: set<Key>)
    requires Silent(heap, a, S) && Silent(heap, b, S)
    ensures Silent(heap, a + b, S)
  {
    forall id | id in S
      ensures KidsOf(heap, a + b, id) == []
    {
      KidsConcat(heap, a, b, id);
    }
  }

  lemma SilentRecs(heap: Heap, list: seq<Ptr>, t: Tree, pid: Key, S: set<Key>)
    requires Match(heap, list, Recs(t, pid)) && Proper(t) && S !! Ids(t) && pid !in S
    ensures Silent(heap, list, S)
  {
    forall id | id in S
      ensures KidsOf(heap, list, id) == []
    {
      KidsOfRecs(heap, list, t, pid, id);
    }
  }

  lemma SilentRecsAll(heap: Heap, list: seq<Ptr>, ts: seq<Tree>, pid: Key, S: set<Key>)
    requires Match(heap, list, RecsAll(ts, pid)) && ProperAll(ts) && S !! IdsAll(ts) && pid !in S
    ensures Silent(heap, list, S)
  {
    forall id | id in S
      ensures KidsOf(heap, list, id) == []
    {
      KidsOfRecsAll(heap, list, ts, pid, id);
    }
  }

  /** A stretch of the list that holds a tree's records becomes that tree, if nothing outside the
      stretch names one of its ids. */
  lemma {:induction false} Rebuilt(heap: Heap, after: Heap, pre: seq<Ptr>, list: seq<Ptr>, post: seq<Ptr>,
                                   t: Tree, pid: Key)
    requires Match(heap, list, Recs(t, pid)) && Proper(t) && pid !in Ids(t)
    requires Gathered(heap, pre + list + post, after, list)
    requires Silent(heap, pre, Ids(t)) && Silent(heap, post, Ids(t))
    ensures Represents(after, true, list[0], t)
    decreases t
  {
    hide Silent, Gathered, Match, KidsOf, Proper, Represents, RepresentsAll, Heads;
    FirstIsTop(heap, list, t, pid);
    var p, below := list[0], list[1..];
    TopChildren(heap, pre, list, post, t, pid);
    assert pre + list + post == (pre + [p]) + below + post;
    OneIsSilent(heap, p, IdsAll(t.kids), pid);
    SilentLess(heap, pre, Ids(t), IdsAll(t.kids));
    SilentLess(heap, post, Ids(t), IdsAll(t.kids));
    SilentConcat(heap, pre, [p], IdsAll(t.kids));
    GatheredLess(heap, pre + list + post, after, list, below);
    RebuiltAll(heap, after, pre + [p], below, post, t.kids, t.id);
    TopRepresents(heap, pre + list + post, after, list, t, pid);
  }

  lemma FirstIsTop(heap: Heap, list: seq<Ptr>, t: Tree, pid: Key)
    requires Match(heap, list, Recs(t, pid)) && Proper(t)
    ensures list != [] && list[0] in heap && heap[list[0]] == EntryOf(Rec(t.id, pid, t.dir, t.name, t.attrs))
    ensures list == [list[0]] + list[1..] && Match(heap, list[1..], RecsAll(t.kids, t.id))
    ensures ProperAll(t.kids) && t.id !in IdsAll(t.kids)
  {
    MatchSplit(heap, list, [Rec(t.id, pid, t.dir, t.name, t.attrs)], RecsAll(t.kids, t.id));
  }

  lemma GatheredLess(heap: Heap, whole: seq<Ptr>, after: Heap, list: seq<Ptr>, part: seq<Ptr>)
    requires Gathered(heap, whole, after, list) && forall p :: p in part ==> p in list
    ensures Gathered(heap, whole, after, part)
  {
  }

  lemma TopRepresents(heap: Heap, whole: seq<Ptr>, after: Heap, list: seq<Ptr>, t: Tree, pid: Key)
    requires list != [] && list[0] in heap && heap[list[0]] == EntryOf(Rec(t.id, pid, t.dir, t.name, t.attrs))
    requires Gathered(heap, whole, after, list) && RepresentsAll(after, true, KidsOf(heap, whole, t.id), t.kids)
    ensures Represents(after, true, list[0], t)
  {
    assert list[0] in list;
  }

  lemma SilentLess(heap: Heap, list: seq<Ptr>, S: set<Key>, T: set<Key>)
    requires Silent(heap, list, S) && T <= S
    ensures Silent(heap, list, T)
  {
  }

  lemma OneIsSilent(heap: Heap, p: Ptr, S: set<Key>, pid: Key)
    requires p in heap && heap[p].up == ParentKey(pid) && pid !in S
    ensures Silent(heap, [p], S)
  {
    forall id | id in S
      ensures KidsOf(heap, [p], id) == []
    {
      KidsOne(heap, p, id);
    }
  }

  /** In the whole list, the entries that name the top of the tree are the tops of its subtrees. */
  lemma TopChildren(heap: Heap, pre: seq<Ptr>, list: seq<Ptr>, post: seq<Ptr>, t: Tree, pid: Key)
    requires Match(heap, list, Recs(t, pid)) && Proper(t) && pid !in Ids(t)
    requires Silent(heap, pre, Ids(t)) && Silent(heap, post, Ids(t))
    ensures |list[1..]| == |RecsAll(t.kids, t.id)|
    ensures KidsOf(heap, pre + list + post, t.id) == Heads(t.kids, t.id, list[1..])
  {
    hide *;
    FirstIsTop(heap, list, t, pid);
    assert list[..1] == [list[0]] && pre + list + post == pre + ([list[0]] + list[1..]) + post;
    InIds(t);
    SilentAt(heap, pre, Ids(t), t.id);
    SilentAt(heap, post, Ids(t), t.id);
    KidsConcat(heap, pre + ([list[0]] + list[1..]), post, t.id);
    KidsConcat(heap, pre, [list[0]] + list[1..], t.id);
    KidsConcat(heap, [list[0]], list[1..], t.id);
    TopNamesNotItself(heap, list[0], t, pid);
    MatchSize(heap, list[1..], RecsAll(t.kids, t.id));
    KidsOfRecsAll(heap, list[1..], t.kids, t.id, t.id);
  }

  lemma MatchSize(heap: Heap, list: seq<Ptr>, rs: seq<Rec>)
    requires Match(heap, list, rs)
    ensures |list| == |rs|
  {
  }

  lemma InIds(t: Tree)
    ensures t.id in Ids(t)
  {
  }

  lemma SilentAt(heap: Heap, list: seq<Ptr>, S: set<Key>, id: Key)
    requires Silent(heap, list, S) && id in S
    ensures KidsOf(heap, list, id) == []
  {
  }

  lemma TopNamesNotItself(heap: Heap, p: Ptr, t: Tree, pid: Key)
    requires p in heap && heap[p] == EntryOf(Rec(t.id, pid, t.dir, t.name, t.attrs)) && pid !in Ids(t)
    ensures KidsOf(heap, [p], t.id) == []
  {
    KidsOne(heap, p, t.id);
  }

  lemma {:induction false} RebuiltAll(heap: Heap, after: Heap, pre: seq<Ptr>, list: seq<Ptr>, post: seq<Ptr>,
                                      ts: seq<Tree>, pid: Key)
    requires Match(heap, list, RecsAll(ts, pid)) && ProperAll(ts) && pid !in IdsAll(ts)
    requires Gathered(heap, pre + list + post, after, list)
    requires Silent(heap, pre, IdsAll(ts)) && Silent(heap, post, IdsAll(ts))
    ensures RepresentsAll(after, true, Heads(ts, pid, list), ts)
    decreases ts
  {
    hide *;
    if ts == [] {
      NoTrees(heap, after, pid, list);
    } else {
      TreesSplit(ts, pid);
      var n, S, T := |Recs(ts[0], pid)|, Ids(ts[0]), IdsAll(ts[1..]);
      MatchSplit(heap, list, Recs(ts[0], pid), RecsAll(ts[1..], pid));
      var a, b := list[..n], list[n..];
      SilentLess(heap, pre, IdsAll(ts), S);
      SilentLess(heap, pre, IdsAll(ts), T);
      SilentLess(heap, post, IdsAll(ts), S);
      SilentLess(heap, post, IdsAll(ts), T);
      SilentRecs(heap, a, ts[0], pid, T);
      SilentRecsAll(heap, b, ts[1..], pid, S);
      SilentConcat(heap, b, post, S);
      SilentConcat(heap, pre, a, T);
      assert pre + list + post == pre + a + (b + post) == (pre + a) + b + post;
      GatheredLess(heap, pre + list + post, after, list, a);
      GatheredLess(heap, pre + list + post, after, list, b);
      Rebuilt(heap, after, pre, a, b + post, ts[0], pid);
      RebuiltAll(heap, after, pre + a, b, post, ts[1..], pid);
      HeadsRepresent(after, ts, pid, list);
    }
  }

  lemma NoTrees(heap: Heap, after: Heap, pid: Key, list: seq<Ptr>)
    requires Match(heap, list, RecsAll([], pid))
    ensures list == [] && RepresentsAll(after, true, Heads([], pid, list), [])
  {
  }

  lemma TreesSplit(ts: seq<Tree>, pid: Key)
    requires ts != [] && ProperAll(ts)
    ensures Proper(ts[0]) && ProperAll(ts[1..])
    ensures RecsAll(ts, pid) == Recs(ts[0], pid) + RecsAll(ts[1..], pid)
    ensures IdsAll(ts) == Ids(ts[0]) + IdsAll(ts[1..]) && Ids(ts[0]) !! IdsAll(ts[1..])
  {
  }

  lemma HeadsRepresent(after: Heap, ts: seq<Tree>, pid: Key, list: seq<Ptr>)
    requires ts != [] && |list| == |RecsAll(ts, pid)|
    requires |Recs(ts[0], pid)| <= |list| && |list[|Recs(ts[0], pid)|..]| == |RecsAll(ts[1..], pid)|
    requires list != [] && Represents(after, true, list[0], ts[0])
    requires RepresentsAll(after, true, Heads(ts[1..], pid, list[|Recs(ts[0], pid)|..]), ts[1..])
    ensures RepresentsAll(after, true, Heads(ts, pid, list), ts)
  {
    hide Represents, Recs;
    var hs := Heads(ts[1..], pid, list[|Recs(ts[0], pid)|..]);
    assert Heads(ts, pid, list) == [list[0]] + hs && ([list[0]] + hs)[1..] == hs;
  }

  /** Loading the records of a proper tree and attaching them gives that tree, children in order. */
  lemma ReadBack(heap: Heap, list: seq<Ptr>, dirMap: map<Key, Ptr>, after: Heap, t: Tree)
    requires Proper(t) && Loaded(heap, list, dirMap, Recs(t, 0)) && list != []
    requires BuiltUpTo(heap, list, |list|, list[0], dirMap, after)
    ensures Represents(after, true, list[0], t) && Buildable(heap, dirMap, list[0], |Recs(t, 0)|)
    ensures MapOk(heap, dirMap)
  {
    hide *;
    TreeRecordsBuild(heap, list, dirMap, t);
    NoZeroId(t);
    BuiltIsGathered(heap, list, dirMap, after);
    assert [] + list + [] == list;
    EmptyIsSilent(heap, Ids(t));
    Rebuilt(heap, after, [], list, [], t, 0);
  }

  /** What the records of a proper tree are, as a list to attach. */
  lemma TreeRecordsBuild(heap: Heap, list: seq<Ptr>, dirMap: map<Key, Ptr>, t: Tree)
    requires Proper(t) && Loaded(heap, list, dirMap, Recs(t, 0))
    ensures list != [] && Match(heap, list, Recs(t, 0)) && heap[list[0]].up == ParentKey(0) && list[0] in heap
    ensures Listed(heap, dirMap, list) && UniqueIds(heap) && MapOk(heap, dirMap)
    ensures ParentsBefore(heap, dirMap, list[0], list) && Buildable(heap, dirMap, list[0], |Recs(t, 0)|)
  {
    var rs := Recs(t, 0);
    RecsDistinct(t, 0);
    ParentsFirst(t, 0);
    hide Recs, Proper, Listed, UniqueIds, MapOk, ParentsBefore, Buildable, DistinctIds, AfterParent, MapOf;
    GoodIdsAre(rs);
    LoadedIsListed(heap, list, dirMap, rs);
    LoadedIds(heap, list, dirMap, rs);
    LoadedMap(heap, list, dirMap, rs);
    PreorderBuilds(heap, list, dirMap, rs);
    assert heap[list[0]] == EntryOf(rs[0]);
  }

  lemma GoodIdsAre(rs: seq<Rec>)
    requires DistinctIds(rs) && forall r :: r in rs ==> r.frn != 0
    ensures GoodIds(rs)
  {
  }

  lemma EmptyIsSilent(heap: Heap, S: set<Key>)
    ensures Silent(heap, [], S)
  {
  }

  lemma BuiltIsGathered(heap: Heap, list: seq<Ptr>, dirMap: map<Key, Ptr>, after: Heap)
    requires list != [] && Listed(heap, dirMap, list) && UniqueIds(heap) && MapOk(heap, dirMap)
    requires list[0] in heap && heap[list[0]].up == ParentKey(0) && ParentsBefore(heap, dirMap, list[0], list)
    requires BuiltUpTo(heap, list, |list|, list[0], dirMap, after)
    ensures Gathered(heap, list, after, list)
  {
    NoNull(heap, dirMap, list);
    ListedDistinct(heap, dirMap, list);
    ListedMap(heap, dirMap, list);
    hide Listed, UniqueIds, MapOk, MapIn, BuiltUpTo, KidsAt, KidsOf, ParentOf;
    forall p | p in list
      ensures p in after && after[p] == heap[p].(children := KidsOf(heap, list, heap[p].frn), up := after[p].up)
    {
      GatheredAt(heap, list, dirMap, after, p);
    }
  }

  lemma GatheredAt(heap: Heap, list: seq<Ptr>, dirMap: map<Key, Ptr>, after: Heap, p: Ptr)
    requires list != [] && Listed(heap, dirMap, list) && UniqueIds(heap) && MapOk(heap, dirMap) && MapIn(heap, dirMap)
    requires list[0] in heap && heap[list[0]].up == ParentKey(0) && ParentsBefore(heap, dirMap, list[0], list)
    requires BuiltUpTo(heap, list, |list|, list[0], dirMap, after)
    requires p in heap && p != 0 && forall e :: e in list ==> e in heap
    ensures p in after && after[p] == heap[p].(children := KidsOf(heap, list, heap[p].frn), up := after[p].up)
  {
    hide *;
    BuiltIs(heap, list, list[0], dirMap, after, p);
    NamedKids(heap, dirMap, list[0], list, p);
    if !heap[p].dir {
      FilesAreNotNamed(heap, dirMap, list[0], list, |list|, p);
      assert list[..|list|] == list;
    }
  }

  /** Where every parent is known, no entry names a file as its parent. */
  lemma {:induction false} FilesAreNotNamed(heap: Heap, dirMap: map<Key, Ptr>, root: Ptr, list: seq<Ptr>,
                                            n: nat, p: Ptr)
    requires Listed(heap, dirMap, list) && UniqueIds(heap) && ParentsBefore(heap, dirMap, root, list) && n <= |list|
    requires p in heap && !heap[p].dir && root in heap && heap[root].up == ParentKey(0)
    ensures KidsOf(heap, list[..n], heap[p].frn) == []
  {
    hide Listed, UniqueIds, ParentsBefore;
    if n > 0 {
      FilesAreNotNamed(heap, dirMap, root, list, n - 1, p);
      FileIsNotNamed(heap, dirMap, root, list, n - 1, p);
      assert list[..n][..n - 1] == list[..n - 1];
    }
  }

  lemma FileIsNotNamed(heap: Heap, dirMap: map<Key, Ptr>, root: Ptr, list: seq<Ptr>, i: nat, p: Ptr)
    requires Listed(heap, dirMap, list) && UniqueIds(heap) && ParentsBefore(heap, dirMap, root, list) && i < |list|
    requires p in heap && !heap[p].dir && root in heap && heap[root].up == ParentKey(0)
    ensures list[i] in heap && heap[list[i]].up != ParentKey(heap[p].frn)
  {
    assert list[i] in list;
    if list[i] != root {
      var parent := ParentOf(heap, dirMap, root, list[i]);
      assert parent in list[..i] && parent in list;
    }
  }

  lemma {:induction false} NoZeroId(t: Tree)
    requires Proper(t)
    ensures 0 !in Ids(t)
    decreases t
  {
    NoZeroIdAll(t.kids);
  }

  lemma {:induction false} NoZeroIdAll(ts: seq<Tree>)
    requires ProperAll(ts)
    ensures 0 !in IdsAll(ts)
    decreases ts
  {
    if ts != [] {
      NoZeroId(ts[0]);
      NoZeroIdAll(ts[1..]);
    }
  }

  // ---------- what is saved is proper ----------

  /** Some entry of S is saved under id. */
  ghost predicate KeyedIn(heap: Heap, ntfs: bool, S: set<Ptr>, id: Key) {
    exists q :: q in S && q in heap && KeyOf(heap, ntfs, q) == id
  }

  /** Some entry below one of the children of f, from the k-th on, is saved under id. */
  ghost predicate KeyedAmong(heap: Heap, ntfs: bool, f: Ptr, k: int, id: Key) {
    && f in heap
    && exists i ::
         k <= i < |heap[f].children| && 0 <= i && KeyedIn(heap, ntfs, Subtree(heap, heap[f].children[i]), id)
  }

  lemma KeyedOnce(heap: Heap, ntfs: bool, S: set<Ptr>, T: set<Ptr>, id: Key)
    requires UniqueIds(heap) && S !! T && KeyedIn(heap, ntfs, S, id)
    ensures !KeyedIn(heap, ntfs, T, id)
  {
  }

  /** A tree of a sound index has no id twice, no id 0, and only directories with children. */
  lemma {:induction false} SavedProper(heap: Heap, rank: map<Ptr, nat>, ntfs: bool, p: Ptr, t: Tree)
    requires Linked(heap) && Ranked(heap, rank) && UniqueIds(heap) && Represents(heap, ntfs, p, t)
    ensures Proper(t) && forall id :: id in Ids(t) ==> KeyedIn(heap, ntfs, Subtree(heap, p), id)
    decreases t
  {
    hide Linked, Ranked, UniqueIds, KeyedIn, KeyedAmong, Subtree;
    assert heap[p].children[0..] == heap[p].children;
    SavedProperAll(heap, rank, ntfs, p, 0, t.kids);
    OwnKey(heap, ntfs, p);
    if !heap[p].dir {
      LeafHasNoChildren(heap, p);
    }
    forall id | id in IdsAll(t.kids)
      ensures KeyedIn(heap, ntfs, Subtree(heap, p), id) && id != t.id
    {
      KeyedBelow(heap, rank, ntfs, p, id);
    }
  }

  lemma OwnKey(heap: Heap, ntfs: bool, p: Ptr)
    requires Linked(heap) && UniqueIds(heap) && p in heap
    ensures KeyOf(heap, ntfs, p) != 0 && KeyedIn(heap, ntfs, Subtree(heap, p), KeyOf(heap, ntfs, p))
  {
    hide Under;
    UnderUnfolds(heap, p, p);
    assert p in Subtree(heap, p);
  }

  lemma KeyedBelow(heap: Heap, rank: map<Ptr, nat>, ntfs: bool, f: Ptr, id: Key)
    requires Linked(heap) && Ranked(heap, rank) && UniqueIds(heap) && f in heap && KeyedAmong(heap, ntfs, f, 0, id)
    ensures KeyedIn(heap, ntfs, Subtree(heap, f), id) && id != KeyOf(heap, ntfs, f)
  {
    hide Under, Linked, Ranked, Subtree;
    var i :| 0 <= i < |heap[f].children| && KeyedIn(heap, ntfs, Subtree(heap, heap[f].children[i]), id);
    var q :| q in Subtree(heap, heap[f].children[i]) && q in heap && KeyOf(heap, ntfs, q) == id;
    BelowIsSubtree(heap, rank, f);
    BelowMembers(heap, f, |heap[f].children|, q);
  }

  lemma {:induction false} SavedProperAll(heap: Heap, rank: map<Ptr, nat>, ntfs: bool, f: Ptr, k: int, ts: seq<Tree>)
    requires Linked(heap) && Ranked(heap, rank) && UniqueIds(heap) && f in heap && 0 <= k <= |heap[f].children|
    requires RepresentsAll(heap, ntfs, heap[f].children[k..], ts)
    ensures ProperAll(ts) && forall id :: id in IdsAll(ts) ==> KeyedAmong(heap, ntfs, f, k, id)
    decreases ts
  {
    hide Linked, Ranked, UniqueIds, KeyedIn, KeyedAmong, Subtree;
    if ts != [] {
      var c := heap[f].children[k];
      assert heap[f].children[k..][0] == c && heap[f].children[k..][1..] == heap[f].children[k + 1..];
      SavedProper(heap, rank, ntfs, c, ts[0]);
      SavedProperAll(heap, rank, ntfs, f, k + 1, ts[1..]);
      forall id | id in Ids(ts[0])
        ensures KeyedAmong(heap, ntfs, f, k, id) && id !in IdsAll(ts[1..])
      {
        KeyedHere(heap, rank, ntfs, f, k, id);
      }
      forall id | id in IdsAll(ts[1..])
        ensures KeyedAmong(heap, ntfs, f, k, id)
      {
        KeyedLater(heap, ntfs, f, k, id);
      }
    }
  }

  lemma KeyedLater(heap: Heap, ntfs: bool, f: Ptr, k: int, id: Key)
    requires KeyedAmong(heap, ntfs, f, k + 1, id)
    ensures KeyedAmong(heap, ntfs, f, k, id)
  {
  }

  lemma KeyedHere(heap: Heap, rank: map<Ptr, nat>, ntfs: bool, f: Ptr, k: int, id: Key)
    requires Linked(heap) && Ranked(heap, rank) && UniqueIds(heap) && f in heap && 0 <= k < |heap[f].children|
    requires KeyedIn(heap, ntfs, Subtree(heap, heap[f].children[k]), id)
    ensures KeyedAmong(heap, ntfs, f, k, id) && !KeyedAmong(heap, ntfs, f, k + 1, id)
  {
    assert NodeOk(heap, f);
    hide Linked, Ranked, UniqueIds, KeyedIn, Subtree, Under;
    forall i | k + 1 <= i < |heap[f].children|
      ensures !KeyedIn(heap, ntfs, Subtree(heap, heap[f].children[i]), id)
    {
      SiblingTreesDisjoint(heap, rank, f, heap[f].children[k], heap[f].children[i]);
      KeyedOnce(heap, ntfs, Subtree(heap, heap[f].children[k]), Subtree(heap, heap[f].children[i]), id);
    }
  }

  lemma SiblingTreesDisjoint(heap: Heap, rank: map<Ptr, nat>, f: Ptr, c: Ptr, d: Ptr)
    requires Linked(heap) && Ranked(heap, rank) && f in heap
    requires c in heap[f].children && d in heap[f].children && c != d
    ensures Subtree(heap, c) !! Subtree(heap, d)
  {
    hide Under, Linked, Ranked;
    forall p | p in heap
      ensures !(p in Subtree(heap, c) && p in Subtree(heap, d))
    {
      SiblingsDisjoint(heap, rank, f, c, d, p);
    }
  }
}
