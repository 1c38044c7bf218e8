/** filesearch/chinese.cpp: every way to read a text as a list of pinyin syllables, and the fuzzy
    variants of those lists. The syllable table is a parameter. */
module Pinyin {
  type Table = seq<string>      // pinyins, with py_lens[i] the length of word i
  type Reading = seq<int>       // IntList: indices into the table

  /** Distinct words of one to six letters, and no apostrophe in them. */
  predicate ValidTable(t: Table) {
    && (forall i :: 0 <= i < |t| ==> 1 <= |t[i]| <= 6 && '\'' !in t[i])
    && forall i, j :: 0 <= i < j < |t| ==> t[i] != t[j]
  }

  predicate Indices(t: Table, l: Reading) {
    forall k :: 0 <= k < |l| ==> 0 <= l[k] < |t|
  }

  function Spell(t: Table, l: Reading): string
    requires Indices(t, l)
  {
    if l == [] then [] else t[l[0]] + Spell(t, l[1..])
  }

  /** l is a segmentation of s into words of the table. */
  predicate Reads(t: Table, l: Reading, s: string) {
    l != [] && Indices(t, l) && Spell(t, l) == s
  }

  // ---------- lookups ----------

  /** match_pinyin: the first word from `start` on that begins the text. */
  method MatchPinyin(t: Table, s: string, start: nat) returns (r: int)
    requires start <= |t|
    ensures r == -1 || (start <= r < |t| && t[r] <= s)
    ensures forall i :: start <= i < (if r == -1 then |t| else r) ==> !(t[i] <= s)
  {
    var i := start;
    while i < |t|
      invariant start <= i <= |t|
      invariant forall k :: start <= k < i ==> !(t[k] <= s)
    {
      if |t[i]| <= |s| && s[..|t[i]|] == t[i] {
        return i;
      }
      i := i + 1;
    }
    return -1;
  }

  /** exact_match_pinyin: the word itself, if it is in the table. */
  method ExactMatchPinyin(t: Table, s: string) returns (r: int)
    ensures r == -1 || (0 <= r < |t| && t[r] == s)
    ensures forall i :: 0 <= i < (if r == -1 then |t| else r) ==> t[i] != s
  {
    var i := 0;
    while i < |t|
      invariant 0 <= i <= |t|
      invariant forall k :: 0 <= k < i ==> t[k] != s
    {
      if |t[i]| == |s| && s[..|t[i]|] == t[i] {
        return i;
      }
      i := i + 1;
    }
    return -1;
  }

  // ---------- segmentations ----------

  /** The lists with j in front. */
  function Under(j: int, ls: seq<Reading>): (r: seq<Reading>)
    ensures |r| == |ls| && forall k :: 0 <= k < |ls| ==> r[k] == [j] + ls[k]
  {
    seq(|ls|, k requires 0 <= k < |ls| => [j] + ls[k])
  }

  /** The lists that start with the word j. */
  function Starting(t: Table, s: string, j: int): seq<Reading>
    requires 0 <= j < |t| && ValidTable(t)
    decreases |s|, 0
  {
    if !(t[j] <= s) then []
    else if |t[j]| == |s| then [[j]]
    else Under(j, Segs(t, s[|t[j]|..], 0))
  }

  /** In the order of the table, the lists that start with a word from the j-th on. */
  function Segs(t: Table, s: string, j: nat): seq<Reading>
    requires j <= |t| && ValidTable(t)
    decreases |s|, 1 + |t| - j
  {
    if j == |t| then [] else Starting(t, s, j) + Segs(t, s, j + 1)
  }

  ghost predicate Once(ls: seq<Reading>) {
    forall i, j :: 0 <= i < j < |ls| ==> ls[i] != ls[j]
  }

  lemma {:induction false} StartingReads(t: Table, s: string, j: int, l: Reading)
    requires 0 <= j < |t| && ValidTable(t)
    ensures l in Starting(t, s, j) <==> Reads(t, l, s) && l[0] == j
    decreases |s|, 0
  {
    if !(t[j] <= s) {
      FirstIsPrefix(t, l, s);
    } else {
      var rest := s[|t[j]|..];
      assert s == t[j] + rest;
      if l != [] && l[0] == j {
        FirstWord(t, l, s, rest);
        if |t[j]| == |s| {
          if Reads(t, l, s) {
            SpellNothing(t, l[1..]);
          }
          assert l[1..] == [] ==> l == [j];
        } else {
          SegsRead(t, rest, 0, l[1..]);
          UnderMembers(j, Segs(t, rest, 0), l);
        }
      } else if |t[j]| != |s| {
        UnderMembers(j, Segs(t, rest, 0), l);
      }
    }
  }

  lemma FirstIsPrefix(t: Table, l: Reading, s: string)
    ensures Reads(t, l, s) ==> t[l[0]] <= s
  {
    if Reads(t, l, s) {
      assert s == t[l[0]] + Spell(t, l[1..]);
    }
  }

  lemma FirstWord(t: Table, l: Reading, s: string, rest: string)
    requires l != [] && 0 <= l[0] < |t| && s == t[l[0]] + rest
    ensures Reads(t, l, s) <==> Indices(t, l[1..]) && Spell(t, l[1..]) == rest
  {
    assert l == [l[0]] + l[1..];
    if Indices(t, l[1..]) {
      assert Indices(t, l);
      assert Spell(t, l) == t[l[0]] + Spell(t, l[1..]);
      if t[l[0]] + Spell(t, l[1..]) == t[l[0]] + rest {
        assert (t[l[0]] + rest)[|t[l[0]]|..] == rest;
        assert (t[l[0]] + Spell(t, l[1..]))[|t[l[0]]|..] == Spell(t, l[1..]);
      }
    }
  }

  lemma SpellNothing(t: Table, l: Reading)
    requires ValidTable(t) && Indices(t, l) && Spell(t, l) == []
    ensures l == []
  {
  }

  lemma UnderMembers(j: int, ls: seq<Reading>, l: Reading)
    ensures l in Under(j, ls) <==> l != [] && l[0] == j && l[1..] in ls
  {
    if l != [] && l[0] == j && l[1..] in ls {
      var k :| 0 <= k < |ls| && ls[k] == l[1..];
      assert Under(j, ls)[k] == l;
    }
  }

  /** Segs holds exactly the segmentations of s that start with a word from the j-th on. */
  lemma {:induction false} SegsRead(t: Table, s: string, j: nat, l: Reading)
    requires j <= |t| && ValidTable(t)
    ensures l in Segs(t, s, j) <==> Reads(t, l, s) && j <= l[0]
    decreases |s|, 1 + |t| - j
  {
    if j < |t| {
      StartingReads(t, s, j, l);
      SegsRead(t, s, j + 1, l);
    }
  }

  /** And each of them once. */
  lemma {:induction false} SegsOnce(t: Table, s: string, j: nat)
    requires j <= |t| && ValidTable(t)
    ensures Once(Segs(t, s, j))
    decreases |s|, 1 + |t| - j
  {
    if j < |t| {
      var a, b := Starting(t, s, j), Segs(t, s, j + 1);
      if t[j] <= s && |t[j]| != |s| {
        SegsOnce(t, s[|t[j]|..], 0);
        UnderOnce(j, Segs(t, s[|t[j]|..], 0));
      }
      SegsOnce(t, s, j + 1);
      forall x, y | 0 <= x < |a| && 0 <= y < |b|
        ensures a[x] != b[y]
      {
        StartingReads(t, s, j, a[x]);
        SegsRead(t, s, j + 1, b[y]);
      }
    }
  }

  lemma UnderOnce(j: int, ls: seq<Reading>)
    requires Once(ls)
    ensures Once(Under(j, ls))
  {
    forall x, y | 0 <= x < y < |ls|
      ensures Under(j, ls)[x] != Under(j, ls)[y]
    {
      assert ([j] + ls[x])[1..] == ls[x] && ([j] + ls[y])[1..] == ls[y];
    }
  }

  // ---------- parse_pinyin_1 ----------

  /** The same prefix before every list. */
  function Prefixed(p: Reading, ls: seq<Reading>): (r: seq<Reading>)
    ensures |r| == |ls| && forall k :: 0 <= k < |ls| ==> r[k] == p + ls[k]
  {
    seq(|ls|, k requires 0 <= k < |ls| => p + ls[k])
  }

  lemma PrefixedConcat(p: Reading, a: seq<Reading>, b: seq<Reading>)
    ensures Prefixed(p, a + b) == Prefixed(p, a) + Prefixed(p, b)
  {
  }

  lemma PrefixedUnder(p: Reading, j: int, ls: seq<Reading>)
    ensures Prefixed(p, Under(j, ls)) == Prefixed(p + [j], ls) && Prefixed(p, [[j]]) == [p + [j]]
  {
    forall k | 0 <= k < |ls|
      ensures p + ([j] + ls[k]) == p + [j] + ls[k]
    {
    }
  }

  /** strcspn(str, "'"), for a text that may go on after its `len` characters. */
  function Apostrophe(s: string): (k: nat)
    ensures k <= |s| && (k < |s| ==> s[k] == '\'') && forall i :: 0 <= i < k ==> s[i] != '\''
  {
    if s == [] || s[0] == '\'' then 0 else 1 + Apostrophe(s[1..])
  }

  /** What one call appends: a text of exactly two words around an apostrophe is those two words,
      without the prefix that was read before; any other text is read word by word. */
  function Parsed(t: Table, s: string, p: Reading, j: nat): seq<Reading>
    requires j <= |t| && ValidTable(t)
    decreases |s|, 1 + |t| - j
  {
    if j == |t| then []
    else
      (if !(t[j] <= s) then []
       else if |t[j]| == |s| then [p + [j]]
       else Call(t, s[|t[j]|..], p + [j])) + Parsed(t, s, p, j + 1)
  }

  function Call(t: Table, s: string, p: Reading): seq<Reading>
    requires ValidTable(t)
    decreases |s|, 2 + |t|
  {
    var k := Apostrophe(s);
    if 0 < k < |s| && s[..k] in t && s[k + 1..] in t then [[IndexOf(t, s[..k]), IndexOf(t, s[k + 1..])]]
    else Parsed(t, s, p, 0)
  }

  function IndexOf(t: Table, w: string): (i: int)
    requires w in t
    ensures 0 <= i < |t| && t[i] == w && forall k :: 0 <= k < i ==> t[k] != w
  {
    if t[0] == w then 0 else 1 + IndexOf(t[1..], w)
  }

  /** Without an apostrophe a call appends the prefix before every segmentation. */
  lemma {:induction false} CallReads(t: Table, s: string, p: Reading)
    requires ValidTable(t) && '\'' !in s
    ensures Call(t, s, p) == Prefixed(p, Segs(t, s, 0))
    decreases |s|, 2 + |t|
  {
    ParsedReads(t, s, p, 0);
  }

  lemma {:induction false} ParsedReads(t: Table, s: string, p: Reading, j: nat)
    requires j <= |t| && ValidTable(t) && '\'' !in s
    ensures Parsed(t, s, p, j) == Prefixed(p, Segs(t, s, j))
    decreases |s|, 1 + |t| - j
  {
    if j < |t| {
      ParsedReads(t, s, p, j + 1);
      PrefixedConcat(p, Starting(t, s, j), Segs(t, s, j + 1));
      if t[j] <= s && |t[j]| != |s| {
        var rest := s[|t[j]|..];
        CallReads(t, rest, p + [j]);
        PrefixedUnder(p, j, Segs(t, rest, 0));
      } else if t[j] <= s {
        PrefixedUnder(p, j, []);
      }
    }
  }

  /** No word between j and i begins the text, so none of them contributes a list. */
  lemma {:induction false} ParsedSkip(t: Table, s: string, p: Reading, j: nat, i: nat)
    requires j <= i <= |t| && ValidTable(t)
    requires forall k :: j <= k < i ==> !(t[k] <= s)
    ensures Parsed(t, s, p, j) == Parsed(t, s, p, i)
    decreases i - j
  {
    hide Call;
    if j < i {
      ParsedSkip(t, s, p, j + 1, i);
    }
  }

  lemma ParsedStep(t: Table, s: string, p: Reading, i: nat)
    requires i < |t| && ValidTable(t) && t[i] <= s
    ensures |t[i]| > 0
    ensures Parsed(t, s, p, i) ==
            (if |t[i]| == |s| then [p + [i]] else Call(t, s[|t[i]|..], p + [i])) + Parsed(t, s, p, i + 1)
  {
  }

  lemma CallIs(t: Table, s: string, p: Reading, t1: int, t2: int)
    requires ValidTable(t)
    requires var k := Apostrophe(s);
             && (0 < k < |s| ==> if t1 == -1 then s[..k] !in t else 0 <= t1 < |t| && t[t1] == s[..k])
             && (0 < k < |s| ==> if t2 == -1 then s[k + 1..] !in t else 0 <= t2 < |t| && t[t2] == s[k + 1..])
    ensures Call(t, s, p) == if 0 < Apostrophe(s) < |s| && t1 != -1 && t2 != -1 then [[t1, t2]] else Parsed(t, s, p, 0)
  {
    hide Parsed, Apostrophe, IndexOf;
  }

  /** A vector of lists, appended to in place. */
  class WordList {
    var lists: seq<Reading>

    constructor ()
      ensures lists == []
    {
      lists := [];
    }

    method PushBack(l: Reading)
      modifies this
      ensures lists == old(lists) + [l]
    {
      lists := lists + [l];
    }
  }

  /** parse_pinyin_1. */
  method ParsePinyin1(t: Table, s: string, words: WordList, intlist: Reading)
    requires ValidTable(t)
    modifies words
    ensures words.lists == old(words.lists) + Call(t, s, intlist)
    decreases |s|
  {
    hide *;
    var k := Apostrophe(s);
    var t1, t2 := -1, -1;
    if 0 < k < |s| {
      t1 := ExactMatchPinyin(t, s[..k]);
      t2 := ExactMatchPinyin(t, s[k + 1..]);
    }
    CallIs(t, s, intlist, t1, t2);
    if t1 != -1 && t2 != -1 {
      words.PushBack([t1, t2]);
      return;
    }
    ghost var start := words.lists;
    var j := 0;
    var i := MatchPinyin(t, s, j);
    while i != -1
      invariant 0 <= j <= |t| && (i == -1 || (j <= i < |t| && t[i] <= s))
      invariant forall n :: j <= n < (if i == -1 then |t| else i) ==> !(t[n] <= s)
      invariant words.lists + Parsed(t, s, intlist, j) == start + Parsed(t, s, intlist, 0)
      decreases |t| - j
    {
      ParsedSkip(t, s, intlist, j, i);
      ParsedStep(t, s, intlist, i);
      j := i + 1;
      var newlist := intlist + [i];
      if |t[i]| == |s| {
        words.PushBack(newlist);
      } else {
        ParsePinyin1(t, s[|t[i]|..], words, newlist);
      }
      i := MatchPinyin(t, s, j);
    }
    ParsedSkip(t, s, intlist, j, |t|);
    ParsedNothing(t, s, intlist);
  }

  lemma ParsedNothing(t: Table, s: string, p: Reading)
    requires ValidTable(t)
    ensures Parsed(t, s, p, |t|) == []
  {
  }

  // ---------- fuzzy variants ----------

  datatype Pair = Pair(short: string, long: string)

  /** The first DEFAULT_MOHU_SM_COUNT rows of mohu_shenmu and DEFAULT_MOHU_YM_COUNT rows of mohu_yunmu. */
  const SHENMU: seq<Pair> := [Pair("z", "zh"), Pair("c", "ch"), Pair("s", "sh"), Pair("l", "n")]
  const YUNMU: seq<Pair> := [Pair("an", "ang"), Pair("en", "eng"), Pair("in", "ing")]

  /** w with its beginning `from` replaced, if something is left of it. */
  predicate Begins(w: string, from: string, to: string, v: string) {
    |from| < |w| && from <= w && v == to + w[|from|..]
  }

  /** w with its end `from` replaced, if something is left of it. */
  predicate Ends(w: string, from: string, to: string, v: string) {
    |from| < |w| && w[|w| - |from|..] == from && v == w[..|w| - |from|] + to
  }

  function From(p: Pair, shortpy: bool): string { if shortpy then p.short else p.long }

  function To(p: Pair, shortpy: bool): string { if shortpy then p.long else p.short }

  /** v comes from w by one of the first n initials, or one of the first m finals, in one direction. */
  predicate Swapped(w: string, v: string, shortpy: bool, n: nat, m: nat) {
    || (exists i :: 0 <= i < n && i < |SHENMU| && Begins(w, From(SHENMU[i], shortpy), To(SHENMU[i], shortpy), v))
    || (exists i :: 0 <= i < m && i < |YUNMU| && Ends(w, From(YUNMU[i], shortpy), To(YUNMU[i], shortpy), v))
  }

  predicate Fuzzy(t: Table, p: int, q: int, shortpy: bool) {
    0 <= p < |t| && 0 <= q < |t| && Swapped(t[p], t[q], shortpy, |SHENMU|, |YUNMU|)
  }

  /** One step, in either direction. */
  predicate Variant(t: Table, p: int, q: int) {
    Fuzzy(t, p, q, true) || Fuzzy(t, p, q, false)
  }

  /** w begins with a and v with b, and the same follows, not nothing. */
  ghost predicate BeginWith(w: string, v: string, a: string, b: string) {
    exists r: string :: r != "" && w == a + r && v == b + r
  }

  ghost predicate EndWith(w: string, v: string, a: string, b: string) {
    exists r: string :: r != "" && w == r + a && v == r + b
  }

  ghost predicate Kin(w: string, v: string) {
    || BeginWith(w, v, "z", "zh") || BeginWith(w, v, "c", "ch") || BeginWith(w, v, "s", "sh")
    || BeginWith(w, v, "l", "n")
    || EndWith(w, v, "an", "ang") || EndWith(w, v, "en", "eng") || EndWith(w, v, "in", "ing")
  }

  lemma BeginsExactly(w: string, from: string, to: string, v: string)
    ensures Begins(w, from, to, v) <==> BeginWith(w, v, from, to)
    ensures Begins(w, from, to, v) <==> BeginWith(v, w, to, from)
  {
    if Begins(w, from, to, v) {
      var r := w[|from|..];
      assert w == from + r && v == to + r;
    }
    if r: string :| r != "" && w == from + r && v == to + r {
      assert w[|from|..] == r && from <= w;
    }
  }

  lemma EndsExactly(w: string, from: string, to: string, v: string)
    ensures Ends(w, from, to, v) <==> EndWith(w, v, from, to)
    ensures Ends(w, from, to, v) <==> EndWith(v, w, to, from)
  {
    if Ends(w, from, to, v) {
      var r := w[..|w| - |from|];
      assert w == r + from && v == r + to;
    }
    if r: string :| r != "" && w == r + from && v == r + to {
      assert w[..|w| - |from|] == r && w[|w| - |from|..] == from;
    }
  }

  /** One step of the fuzzy tables exchanges z and zh, c and ch, s and sh or l and n at the beginning, or an and
      ang, en and eng or in and ing at the end, in one direction or in the other, and nothing else. */
  lemma SwappedExactly(w: string, v: string)
    ensures |SHENMU| == 4 && |YUNMU| == 3
    ensures Swapped(w, v, true, 4, 3) <==> Kin(w, v)
    ensures Swapped(w, v, false, 4, 3) <==> Kin(v, w)
  {
    Rows(w, v, true);
    Rows(w, v, false);
    hide Begins, Ends, BeginWith, EndWith, Swapped;
    BeginsExactly(w, "z", "zh", v);
    BeginsExactly(w, "c", "ch", v);
    BeginsExactly(w, "s", "sh", v);
    BeginsExactly(w, "l", "n", v);
    EndsExactly(w, "an", "ang", v);
    EndsExactly(w, "en", "eng", v);
    EndsExactly(w, "in", "ing", v);
    BeginsExactly(w, "zh", "z", v);
    BeginsExactly(w, "ch", "c", v);
    BeginsExactly(w, "sh", "s", v);
    BeginsExactly(w, "n", "l", v);
    EndsExactly(w, "ang", "an", v);
    EndsExactly(w, "eng", "en", v);
    EndsExactly(w, "ing", "in", v);
  }

  lemma Rows(w: string, v: string, shortpy: bool)
    ensures Swapped(w, v, shortpy, 4, 3) <==>
            if shortpy then
              || Begins(w, "z", "zh", v) || Begins(w, "c", "ch", v) || Begins(w, "s", "sh", v) || Begins(w, "l", "n", v)
              || Ends(w, "an", "ang", v) || Ends(w, "en", "eng", v) || Ends(w, "in", "ing", v)
            else
              || Begins(w, "zh", "z", v) || Begins(w, "ch", "c", v) || Begins(w, "sh", "s", v) || Begins(w, "n", "l", v)
              || Ends(w, "ang", "an", v) || Ends(w, "eng", "en", v) || Ends(w, "ing", "in", v)
  {
    hide Begins, Ends;
    assert SHENMU[0] == Pair("z", "zh") && SHENMU[1] == Pair("c", "ch");
    assert SHENMU[2] == Pair("s", "sh") && SHENMU[3] == Pair("l", "n");
    assert YUNMU[0] == Pair("an", "ang") && YUNMU[1] == Pair("en", "eng") && YUNMU[2] == Pair("in", "ing");
  }

  /** The two tables are read through these two facts alone. */
  lemma PairsAre()
    ensures |SHENMU| == 4 && |YUNMU| == 3
    ensures forall i :: 0 <= i < 4 ==> 1 <= |SHENMU[i].short| <= 2 && 1 <= |SHENMU[i].long| <= |SHENMU[i].short| + 1
    ensures forall i :: 0 <= i < 3 ==> 1 <= |YUNMU[i].short| <= 2 && |YUNMU[i].long| == |YUNMU[i].short| + 1
  {
  }

  /** An appended variant of `list` at column ii, by the first n initials and m finals. */
  ghost predicate Added(t: Table, list: Reading, ii: nat, shortpy: bool, n: nat, m: nat, l: Reading)
    requires ii < |list|
  {
    exists q :: 0 <= q < |t| && 0 <= list[ii] < |t| && Swapped(t[list[ii]], t[q], shortpy, n, m) && l == list[ii := q]
  }

  /** The lists of `words` after `before` are just the added ones. */
  ghost predicate Appended(t: Table, list: Reading, ii: nat, shortpy: bool, n: nat, m: nat,
                           before: seq<Reading>, after: seq<Reading>)
    requires ii < |list|
  {
    before <= after && forall l :: l in after[|before|..] <==> Added(t, list, ii, shortpy, n, m, l)
  }

  lemma SwappedMore(w: string, v: string, shortpy: bool, n: nat, m: nat)
    ensures n < |SHENMU| ==>
              (Swapped(w, v, shortpy, n + 1, m) <==>
               Swapped(w, v, shortpy, n, m) || Begins(w, From(SHENMU[n], shortpy), To(SHENMU[n], shortpy), v))
    ensures m < |YUNMU| ==>
              (Swapped(w, v, shortpy, n, m + 1) <==>
               Swapped(w, v, shortpy, n, m) || Ends(w, From(YUNMU[m], shortpy), To(YUNMU[m], shortpy), v))
    ensures !Swapped(w, v, shortpy, 0, 0)
  {
    hide SHENMU, YUNMU, Begins, Ends, From, To;
  }

  /** One rule was tried: `hit` says that it applies, mh is what it makes of the word, and k its index. */
  ghost predicate Tried(t: Table, list: Reading, ii: nat, hit: bool, mh: string, k: int,
                        before: seq<Reading>, after: seq<Reading>)
    requires ii < |list|
  {
    && (hit ==> if k == -1 then mh !in t else 0 <= k < |t| && t[k] == mh)
    && after == if hit && k != -1 then before + [list[ii := k]] else before
  }

  lemma AppendedNone(t: Table, list: Reading, ii: nat, shortpy: bool, before: seq<Reading>)
    requires ii < |list|
    ensures Appended(t, list, ii, shortpy, 0, 0, before, before)
  {
    forall l
      ensures !Added(t, list, ii, shortpy, 0, 0, l)
    {
      forall q | 0 <= q < |t| && 0 <= list[ii] < |t|
        ensures !Swapped(t[list[ii]], t[q], shortpy, 0, 0)
      {
        SwappedMore(t[list[ii]], t[q], shortpy, 0, 0);
      }
    }
  }

  /** The rules of the next row add what they make, and no more. */
  lemma AppendedMore(t: Table, list: Reading, ii: nat, shortpy: bool, n: nat, m: nat, n': nat, m': nat,
                     hit: bool, mh: string, k: int, before: seq<Reading>, mid: seq<Reading>, after: seq<Reading>)
    requires ValidTable(t) && ii < |list| && 0 <= list[ii] < |t|
    requires Appended(t, list, ii, shortpy, n, m, before, mid) && Tried(t, list, ii, hit, mh, k, mid, after)
    requires forall q :: 0 <= q < |t| ==>
               (Swapped(t[list[ii]], t[q], shortpy, n', m') <==>
                Swapped(t[list[ii]], t[q], shortpy, n, m) || (hit && t[q] == mh))
    ensures Appended(t, list, ii, shortpy, n', m', before, after)
  {
    hide Swapped;
    var x := list[ii := k];
    assert after[|before|..] == mid[|before|..] + if hit && k != -1 then [x] else [];
    forall l
      ensures l in after[|before|..] <==> Added(t, list, ii, shortpy, n', m', l)
    {
      assert Added(t, list, ii, shortpy, n', m', l) <==>
             Added(t, list, ii, shortpy, n, m, l) || (hit && k != -1 && l == x);
    }
  }

  /** A row of mohu_shenmu as a rule: what it makes of w, and that it fits the buffer mh[8]. */
  lemma BeginsIs(w: string, row: Pair, shortpy: bool)
    requires |w| <= 6 && 1 <= |row.short| <= 2 && 1 <= |row.long| <= |row.short| + 1
    ensures var from, to := From(row, shortpy), To(row, shortpy);
            |from| < |w| && w[..|from|] == from ==>
              |to + w[|from|..]| <= 7 && forall v :: Begins(w, from, to, v) <==> v == to + w[|from|..]
    ensures var from, to := From(row, shortpy), To(row, shortpy);
            !(|from| < |w| && w[..|from|] == from) ==> forall v :: !Begins(w, from, to, v)
  {
  }

  lemma EndsIs(w: string, row: Pair, shortpy: bool)
    requires |w| <= 6 && |row.long| == |row.short| + 1
    ensures var from, to := From(row, shortpy), To(row, shortpy);
            |from| < |w| && w[|w| - |from|..] == from ==>
              |w[..|w| - |from|] + to| <= 7 && forall v :: Ends(w, from, to, v) <==> v == w[..|w| - |from|] + to
    ensures var from, to := From(row, shortpy), To(row, shortpy);
            !(|from| < |w| && w[|w| - |from|..] == from) ==> forall v :: !Ends(w, from, to, v)
  {
  }

  /** One turn of the first loop of mohu_01. */
  method TryInitial(t: Table, words: WordList, list: Reading, ii: nat, shortpy: bool, i: nat,
                    ghost before: seq<Reading>)
    requires ValidTable(t) && ii < |list| && 0 <= list[ii] < |t| && i < |SHENMU|
    requires Appended(t, list, ii, shortpy, i, 0, before, words.lists)
    modifies words
    ensures Appended(t, list, ii, shortpy, i + 1, 0, before, words.lists)
  {
    var w := t[list[ii]];
    assert |w| <= 6;
    hide *;
    PairsAre();
    var p0, p1 := From(SHENMU[i], shortpy), To(SHENMU[i], shortpy);
    BeginsIs(w, SHENMU[i], shortpy);
    RowTried(t, w, shortpy, i, 0);
    ghost var mid := words.lists;
    var hit, k, mh := |p0| < |w| && w[..|p0|] == p0, -1, "";
    if hit {
      mh := p1 + w[|p0|..];
      k := ExactMatchPinyin(t, mh);
      if k != -1 {
        words.PushBack(list[ii := k]);
      }
    }
    TriedIs(t, list, ii, hit, mh, k, mid, words.lists);
    AppendedMore(t, list, ii, shortpy, i, 0, i + 1, 0, hit, mh, k, before, mid, words.lists);
  }

  /** One turn of the second loop of mohu_01. */
  method TryFinal(t: Table, words: WordList, list: Reading, ii: nat, shortpy: bool, i: nat, ghost before: seq<Reading>)
    requires ValidTable(t) && ii < |list| && 0 <= list[ii] < |t| && i < |YUNMU|
    requires Appended(t, list, ii, shortpy, |SHENMU|, i, before, words.lists)
    modifies words
    ensures Appended(t, list, ii, shortpy, |SHENMU|, i + 1, before, words.lists)
  {
    var w := t[list[ii]];
    assert |w| <= 6;
    hide *;
    PairsAre();
    var p0, p1 := From(YUNMU[i], shortpy), To(YUNMU[i], shortpy);
    EndsIs(w, YUNMU[i], shortpy);
    RowTried(t, w, shortpy, |SHENMU|, i);
    ghost var mid := words.lists;
    var hit, k, mh := |p0| < |w| && w[|w| - |p0|..] == p0, -1, "";
    if hit {
      mh := w[..|w| - |p0|] + p1;
      k := ExactMatchPinyin(t, mh);
      if k != -1 {
        words.PushBack(list[ii := k]);
      }
    }
    TriedIs(t, list, ii, hit, mh, k, mid, words.lists);
    AppendedMore(t, list, ii, shortpy, |SHENMU|, i, |SHENMU|, i + 1, hit, mh, k, before, mid, words.lists);
  }

  /** mohu_01: the variants of one column of one list are appended. */
  method Mohu01(t: Table, words: WordList, list: Reading, ii: nat, shortpy: bool)
    requires ValidTable(t) && ii < |list| && 0 <= list[ii] < |t|
    modifies words
    ensures Appended(t, list, ii, shortpy, |SHENMU|, |YUNMU|, old(words.lists), words.lists)
  {
    hide *;
    ghost var before := words.lists;
    AppendedNone(t, list, ii, shortpy, before);
    var i := 0;
    while i < |SHENMU|
      invariant 0 <= i <= |SHENMU| && Appended(t, list, ii, shortpy, i, 0, before, words.lists)
    {
      TryInitial(t, words, list, ii, shortpy, i, before);
      i := i + 1;
    }
    i := 0;
    while i < |YUNMU|
      invariant 0 <= i <= |YUNMU| && Appended(t, list, ii, shortpy, |SHENMU|, i, before, words.lists)
    {
      TryFinal(t, words, list, ii, shortpy, i, before);
      i := i + 1;
    }
  }

  lemma TriedIs(t: Table, list: Reading, ii: nat, hit: bool, mh: string, k: int,
                before: seq<Reading>, after: seq<Reading>)
    requires ii < |list|
    requires hit ==> if k == -1 then forall i :: 0 <= i < |t| ==> t[i] != mh else 0 <= k < |t| && t[k] == mh
    requires after == if hit && k != -1 then before + [list[ii := k]] else before
    ensures Tried(t, list, ii, hit, mh, k, before, after)
  {
  }

  lemma RowTried(t: Table, w: string, shortpy: bool, n: nat, m: nat)
    ensures n < |SHENMU| ==>
              forall q :: 0 <= q < |t| ==>
                (Swapped(w, t[q], shortpy, n + 1, m) <==>
                 Swapped(w, t[q], shortpy, n, m) || Begins(w, From(SHENMU[n], shortpy), To(SHENMU[n], shortpy), t[q]))
    ensures m < |YUNMU| ==>
              forall q :: 0 <= q < |t| ==>
                (Swapped(w, t[q], shortpy, n, m + 1) <==>
                 Swapped(w, t[q], shortpy, n, m) || Ends(w, From(YUNMU[m], shortpy), To(YUNMU[m], shortpy), t[q]))
  {
    hide *;
    forall q | 0 <= q < |t|
      ensures n < |SHENMU| ==>
                (Swapped(w, t[q], shortpy, n + 1, m) <==>
                 Swapped(w, t[q], shortpy, n, m) || Begins(w, From(SHENMU[n], shortpy), To(SHENMU[n], shortpy), t[q]))
      ensures m < |YUNMU| ==>
                (Swapped(w, t[q], shortpy, n, m + 1) <==>
                 Swapped(w, t[q], shortpy, n, m) || Ends(w, From(YUNMU[m], shortpy), To(YUNMU[m], shortpy), t[q]))
    {
      SwappedMore(w, t[q], shortpy, n, m);
    }
  }

  // ---------- all fuzzy readings ----------

  /** l differs from b by one-step variants, in the first c columns only. */
  ghost predicate Mix(t: Table, b: Reading, l: Reading, c: nat) {
    |l| == |b| && forall k :: 0 <= k < |b| ==> l[k] == b[k] || (k < c && Variant(t, b[k], l[k]))
  }

  /** The lists are, for each base list, its mixes. */
  ghost predicate Spread(t: Table, base: seq<Reading>, ls: seq<Reading>, c: nat) {
    forall l :: l in ls <==> MixOfSome(t, base, l, c)
  }

  ghost predicate MixOfSome(t: Table, base: seq<Reading>, l: Reading, c: nat) {
    exists b :: b in base && Mix(t, b, l, c)
  }

  /** l is `list` with a variant in one column. */
  ghost predicate FromList(t: Table, list: Reading, col: nat, l: Reading) {
    col < |list| && exists q :: 0 <= q < |t| && Variant(t, list[col], q) && l == list[col := q]
  }

  ghost predicate FromSome(t: Table, ls: seq<Reading>, n: nat, col: nat, l: Reading) {
    exists i :: 0 <= i < n && i < |ls| && FromList(t, ls[i], col, l)
  }

  lemma SpreadStarts(t: Table, base: seq<Reading>)
    ensures Spread(t, base, base, 0)
  {
    forall l
      ensures l in base <==> MixOfSome(t, base, l, 0)
    {
      if l in base {
        assert Mix(t, l, l, 0);
      }
      if b :| b in base && Mix(t, b, l, 0) {
        assert l == b;
      }
    }
  }

  lemma MixNext(t: Table, b: Reading, l: Reading, c: nat)
    ensures Mix(t, b, l, c) ==> Mix(t, b, l, c + 1)
    ensures Mix(t, b, l, c + 1) && (c >= |b| || l[c] == b[c]) ==> Mix(t, b, l, c)
    ensures Mix(t, b, l, c + 1) && c < |b| && l[c] != b[c] ==>
              Variant(t, b[c], l[c]) && Mix(t, b, l[c := b[c]], c)
  {
    hide Variant;
  }

  lemma MixColumn(t: Table, b: Reading, list: Reading, c: nat, q: int)
    requires Mix(t, b, list, c) && c < |list| && Variant(t, list[c], q)
    ensures Mix(t, b, list[c := q], c + 1)
  {
    hide Variant;
  }

  /** One column more. */
  lemma SpreadNext(t: Table, base: seq<Reading>, snap: seq<Reading>, after: seq<Reading>, c: nat)
    requires Spread(t, base, snap, c)
    requires forall l :: l in after <==> l in snap || FromSome(t, snap, |snap|, c, l)
    ensures Spread(t, base, after, c + 1)
  {
    hide Variant, Mix;
    forall l
      ensures l in after <==> MixOfSome(t, base, l, c + 1)
    {
      if l in after {
        SpreadSound(t, base, snap, c, l);
      }
      if b :| b in base && Mix(t, b, l, c + 1) {
        SpreadComplete(t, base, snap, c, b, l);
      }
    }
  }

  lemma SpreadSound(t: Table, base: seq<Reading>, snap: seq<Reading>, c: nat, l: Reading)
    requires Spread(t, base, snap, c) && (l in snap || FromSome(t, snap, |snap|, c, l))
    ensures MixOfSome(t, base, l, c + 1)
  {
    hide Variant, Mix;
    if l in snap {
      var b :| b in base && Mix(t, b, l, c);
      MixNext(t, b, l, c);
    } else {
      var i :| 0 <= i < |snap| && FromList(t, snap[i], c, l);
      assert snap[i] in snap;
      var b :| b in base && Mix(t, b, snap[i], c);
      var q :| 0 <= q < |t| && Variant(t, snap[i][c], q) && l == snap[i][c := q];
      MixColumn(t, b, snap[i], c, q);
    }
  }

  lemma SpreadComplete(t: Table, base: seq<Reading>, snap: seq<Reading>, c: nat, b: Reading, l: Reading)
    requires Spread(t, base, snap, c) && b in base && Mix(t, b, l, c + 1)
    ensures l in snap || FromSome(t, snap, |snap|, c, l)
  {
    MixNext(t, b, l, c);
    assert |l| == |b|;
    if c >= |b| || l[c] == b[c] {
      assert Mix(t, b, l, c);
      assert MixOfSome(t, base, l, c);
    } else {
      var list := l[c := b[c]];
      assert Mix(t, b, list, c);
      assert MixOfSome(t, base, list, c);
      var i :| 0 <= i < |snap| && snap[i] == list;
      assert l == list[c := l[c]];
      assert FromList(t, snap[i], c, l);
    }
  }

  lemma SpreadIndices(t: Table, base: seq<Reading>, ls: seq<Reading>, c: nat)
    requires Spread(t, base, ls, c) && forall b :: b in base ==> Indices(t, b)
    ensures forall l :: l in ls ==> Indices(t, l)
  {
    hide Swapped;
    forall l | l in ls
      ensures Indices(t, l)
    {
      var b :| b in base && Mix(t, b, l, c);
    }
  }

  lemma FromSomeMore(t: Table, ls: seq<Reading>, n: nat, col: nat, l: Reading)
    requires n < |ls|
    ensures FromSome(t, ls, n + 1, col, l) <==> FromSome(t, ls, n, col, l) || FromList(t, ls[n], col, l)
  {
    hide FromList;
  }

  /** The lists after `snap` are those made from its first n lists. */
  ghost predicate Column(t: Table, snap: seq<Reading>, n: nat, col: nat, now: seq<Reading>) {
    snap <= now && forall l :: l in now[|snap|..] <==> FromSome(t, snap, n, col, l)
  }

  lemma ColumnMore(t: Table, snap: seq<Reading>, n: nat, col: nat, a: seq<Reading>, b: seq<Reading>, c: seq<Reading>)
    requires n < |snap| && Indices(t, snap[n]) && Column(t, snap, n, col, a)
    requires if col < |snap[n]| then
               && Appended(t, snap[n], col, true, |SHENMU|, |YUNMU|, a, b)
               && Appended(t, snap[n], col, false, |SHENMU|, |YUNMU|, b, c)
             else c == a
    ensures Column(t, snap, n + 1, col, c)
  {
    hide SHENMU, YUNMU, Swapped, FromSome;
    if col < |snap[n]| {
      assert c[|snap|..] == a[|snap|..] + b[|a|..] + c[|b|..];
    }
    forall l
      ensures l in c[|snap|..] <==> FromSome(t, snap, n + 1, col, l)
    {
      FromSomeMore(t, snap, n, col, l);
      if col < |snap[n]| {
        TwoDirections(t, snap[n], col, l);
      }
    }
  }

  lemma TwoDirections(t: Table, list: Reading, col: nat, l: Reading)
    requires col < |list| && 0 <= list[col] < |t|
    ensures FromList(t, list, col, l) <==>
            Added(t, list, col, true, |SHENMU|, |YUNMU|, l) || Added(t, list, col, false, |SHENMU|, |YUNMU|, l)
  {
    hide SHENMU, YUNMU, Swapped;
    var p := list[col];
    if q :| 0 <= q < |t| && Variant(t, p, q) && l == list[col := q] {
      var d := Fuzzy(t, p, q, true);
      assert Swapped(t[p], t[q], d, |SHENMU|, |YUNMU|);
    }
    if d: bool, q :| 0 <= q < |t| && Swapped(t[p], t[q], d, |SHENMU|, |YUNMU|) && l == list[col := q] {
      assert Fuzzy(t, p, q, d);
      assert Variant(t, p, q);
    }
  }

  lemma ColumnStarts(t: Table, snap: seq<Reading>, col: nat)
    ensures Column(t, snap, 0, col, snap)
  {
  }

  lemma ColumnEnds(t: Table, base: seq<Reading>, snap: seq<Reading>, col: nat, now: seq<Reading>)
    requires Spread(t, base, snap, col) && Column(t, snap, |snap|, col, now)
    ensures Spread(t, base, now, col + 1)
  {
    assert now == snap + now[|snap|..];
    hide FromSome, MixOfSome;
    SpreadNext(t, base, snap, now, col);
  }

  /** mohu: column after column, the variants of all lists that were there before the column. */
  method Mohu(t: Table, len: nat, words: WordList)
    requires ValidTable(t) && forall l :: l in words.lists ==> Indices(t, l)
    modifies words
    ensures old(words.lists) <= words.lists && Spread(t, old(words.lists), words.lists, len)
  {
    hide *;
    ghost var base := words.lists;
    SpreadStarts(t, base);
    var col := 0;
    while col < len
      invariant 0 <= col <= len && base <= words.lists && Spread(t, base, words.lists, col)
    {
      ghost var snap := words.lists;
      SpreadIndices(t, base, snap, col);
      ColumnStarts(t, snap, col);
      var size, i := |words.lists|, 0;
      while i < size
        invariant 0 <= i <= size == |snap| && snap <= words.lists && Column(t, snap, i, col, words.lists)
      {
        var list := words.lists[i];
        assert list == snap[i] && list in snap;
        IndexAt(t, list, col);
        ghost var a := words.lists;
        ghost var b := a;
        if col < |list| {
          Mohu01(t, words, list, col, true);
          b := words.lists;
          AppendedAfter(t, list, col, true, a, b);
          Mohu01(t, words, list, col, false);
          AppendedAfter(t, list, col, false, b, words.lists);
        }
        ColumnMore(t, snap, i, col, a, b, words.lists);
        i := i + 1;
      }
      ColumnEnds(t, base, snap, col, words.lists);
      col := col + 1;
    }
  }

  lemma IndexAt(t: Table, l: Reading, k: nat)
    requires Indices(t, l)
    ensures k < |l| ==> 0 <= l[k] < |t|
  {
  }

  lemma AppendedAfter(t: Table, list: Reading, ii: nat, shortpy: bool, before: seq<Reading>, after: seq<Reading>)
    requires ii < |list| && Appended(t, list, ii, shortpy, |SHENMU|, |YUNMU|, before, after)
    ensures before <= after
  {
  }

  // ---------- parse_pinyin0 ----------

  /** l has, in every column, the word of b or a one-step variant of it. */
  ghost predicate Blend(t: Table, b: Reading, l: Reading) {
    |l| == |b| && forall k :: 0 <= k < |b| ==> l[k] == b[k] || Variant(t, b[k], l[k])
  }

  lemma {:induction false} SpellLength(t: Table, l: Reading)
    requires ValidTable(t) && Indices(t, l)
    ensures |l| <= |Spell(t, l)|
  {
    if l != [] {
      assert Indices(t, l[1..]);
      SpellLength(t, l[1..]);
    }
  }

  lemma {:induction false} ParsedIndices(t: Table, s: string, p: Reading, j: nat)
    requires j <= |t| && ValidTable(t) && Indices(t, p)
    ensures forall l :: l in Parsed(t, s, p, j) ==> Indices(t, l)
    decreases |s|, 1 + |t| - j
  {
    if j < |t| {
      ParsedIndices(t, s, p, j + 1);
      if t[j] <= s && |t[j]| != |s| {
        CallIndices(t, s[|t[j]|..], p + [j]);
      }
    }
  }

  lemma {:induction false} CallIndices(t: Table, s: string, p: Reading)
    requires ValidTable(t) && Indices(t, p)
    ensures forall l :: l in Call(t, s, p) ==> Indices(t, l)
    decreases |s|, 2 + |t|
  {
    ParsedIndices(t, s, p, 0);
  }

  /** parse_pinyin0: NULL if nothing can be read, else the readings, followed by their fuzzy variants. */
  method ParsePinyin0(t: Table, s: string) returns (words: WordList?)
    requires ValidTable(t)
    ensures words == null <==> s == [] || Call(t, s, []) == []
    ensures words != null ==> fresh(words) && Call(t, s, []) <= words.lists
    ensures words != null ==> Spread(t, Call(t, s, []), words.lists, |s|)
  {
    hide *;
    if |s| == 0 {
      return null;
    }
    words := new WordList();
    ParsePinyin1(t, s, words, []);
    if words.lists == [] {
      return null;
    }
    NoIndices(t);
    CallIndices(t, s, []);
    assert words.lists == Call(t, s, []);
    Mohu(t, |s|, words);
  }

  lemma NoIndices(t: Table)
    ensures Indices(t, [])
  {
  }

  /** A text without an apostrophe: something can be read exactly if it is a run of words of the table;
      every segmentation comes once before any variant; and the lists are, for every segmentation, the
      column-wise product of its words with their one-step variants. */
  lemma AllReadings(t: Table, s: string, ls: seq<Reading>)
    requires ValidTable(t) && '\'' !in s && Spread(t, Call(t, s, []), ls, |s|)
    ensures Call(t, s, []) == Segs(t, s, 0) && Once(Segs(t, s, 0))
    ensures forall b :: b in Segs(t, s, 0) <==> Reads(t, b, s)
    ensures forall l :: l in ls <==> exists b :: Reads(t, b, s) && Blend(t, b, l)
  {
    hide Segs, Call, Spell, Variant;
    CallReads(t, s, []);
    NoPrefix(Segs(t, s, 0));
    SegsOnce(t, s, 0);
    forall b
      ensures b in Segs(t, s, 0) <==> Reads(t, b, s)
    {
      SegsRead(t, s, 0, b);
    }
    forall l
      ensures l in ls <==> exists b :: Reads(t, b, s) && Blend(t, b, l)
    {
      MixesAreBlends(t, s, l);
    }
  }

  lemma NoPrefix(ls: seq<Reading>)
    ensures Prefixed([], ls) == ls
  {
    forall k | 0 <= k < |ls|
      ensures [] + ls[k] == ls[k]
    {
    }
  }

  lemma MixesAreBlends(t: Table, s: string, l: Reading)
    requires ValidTable(t) && forall b :: b in Segs(t, s, 0) <==> Reads(t, b, s)
    ensures MixOfSome(t, Segs(t, s, 0), l, |s|) <==> exists b :: Reads(t, b, s) && Blend(t, b, l)
  {
    hide Segs, Spell, Variant;
    forall b | Reads(t, b, s)
      ensures Mix(t, b, l, |s|) <==> Blend(t, b, l)
    {
      SpellLength(t, b);
    }
  }

  // ---------- texts with an apostrophe ----------

  /** Two words around an apostrophe are those two words and nothing else, whatever was read before. */
  lemma SplitDropsPrefix(t: Table, a: int, b: int, p: Reading)
    requires ValidTable(t) && 0 <= a < |t| && 0 <= b < |t|
    ensures Call(t, t[a] + "'" + t[b], p) == [[a, b]]
  {
    hide Parsed, Indices;
    var s := t[a] + "'" + t[b];
    ApostropheAt(t[a], t[b]);
    assert s[..|t[a]|] == t[a] && s[|t[a]| + 1..] == t[b];
    assert IndexOf(t, t[a]) == a && IndexOf(t, t[b]) == b;
  }

  lemma {:induction false} ApostropheAt(a: string, b: string)
    requires '\'' !in a
    ensures Apostrophe(a + "'" + b) == |a|
  {
    if a != [] {
      assert (a + "'" + b)[1..] == a[1..] + "'" + b;
      ApostropheAt(a[1..], b);
    }
  }

  /** Some segmentation of a into more than one word starts with a word from the j-th on. */
  predicate Longer(t: Table, a: string, j: nat)
    requires j <= |t| && ValidTable(t)
    decreases |t| - j
  {
    j < |t| && ((t[j] <= a && |t[j]| < |a| && Segs(t, a[|t[j]|..], 0) != []) || Longer(t, a, j + 1))
  }

  /** A text can be read if it is a word, or if it can be read as more than one. */
  lemma {:induction false} ReadsOrWord(t: Table, a: string, j: nat)
    requires j <= |t| && ValidTable(t)
    ensures Segs(t, a, j) != [] <==> Longer(t, a, j) || a in t[j..]
    decreases |t| - j
  {
    if j < |t| {
      ReadsOrWord(t, a, j + 1);
      assert t[j..] == [t[j]] + t[j + 1..];
      hide ValidTable;
      assert t[j] <= a && |t[j]| == |a| ==> t[j] == a;
    }
  }

  /** l is a last word of a, and then the word b. */
  predicate LastThen(t: Table, a: string, b: string, l: Reading) {
    |l| == 2 && Indices(t, l) && t[l[1]] == b && |t[l[0]]| <= |a| && t[l[0]] == a[|a| - |t[l[0]]|..]
  }

  lemma WordBegins(t: Table, a: string, b: string, j: int)
    requires ValidTable(t) && 0 <= j < |t|
    ensures t[j] <= a + "'" + b <==> t[j] <= a
    ensures t[j] <= a ==> (a + "'" + b)[|t[j]|..] == a[|t[j]|..] + "'" + b
  {
    var s := a + "'" + b;
    if t[j] <= s {
      ReachesApostrophe(t[j], a, b);
      assert t[j] == s[..|t[j]|] == a[..|t[j]|];
    }
  }

  lemma ReachesApostrophe(w: string, a: string, b: string)
    requires w <= a + "'" + b
    ensures |w| > |a| ==> '\'' in w
  {
    if |w| > |a| {
      assert w[|a|] == (a + "'" + b)[|a|];
    }
  }

  /** What one call makes of a text with an apostrophe: it finds something exactly when the text after
      it is a word and the text before it can be read, and all that it finds is a last word of that,
      and the word after. */
  lemma {:induction false} CallAround(t: Table, a: string, b: string, p: Reading)
    requires ValidTable(t) && '\'' !in a
    ensures Call(t, a + "'" + b, p) != [] <==> b in t && Segs(t, a, 0) != []
    ensures forall l :: l in Call(t, a + "'" + b, p) ==> LastThen(t, a, b, l)
    decreases |a|, 2 + |t|
  {
    hide ValidTable, Segs;
    var s := a + "'" + b;
    ApostropheAt(a, b);
    assert s[..|a|] == a && s[|a| + 1..] == b;
    ReadsOrWord(t, a, 0);
    assert t[0..] == t;
    NoEmptyWord(t);
    if 0 < |a| && a in t && b in t {
      assert Call(t, s, p) == [[IndexOf(t, a), IndexOf(t, b)]];
      assert a[|a| - |a|..] == a;
    } else {
      AfterApostrophe(t, b);
      ParsedAround(t, a, b, p, 0);
      assert Call(t, s, p) == Parsed(t, s, p, 0);
    }
  }

  lemma NoEmptyWord(t: Table)
    requires ValidTable(t)
    ensures "" !in t
  {
  }

  lemma AfterApostrophe(t: Table, b: string)
    requires ValidTable(t)
    ensures b in t ==> '\'' !in b && b != ""
  {
  }

  lemma {:induction false} ParsedAround(t: Table, a: string, b: string, p: Reading, j: nat)
    requires ValidTable(t) && '\'' !in a && j <= |t|
    ensures Parsed(t, a + "'" + b, p, j) != [] <==> b in t && Longer(t, a, j)
    ensures forall l :: l in Parsed(t, a + "'" + b, p, j) ==> LastThen(t, a, b, l)
    decreases |a|, 1 + |t| - j
  {
    hide *;
    if j < |t| {
      ParsedAround(t, a, b, p, j + 1);
      var head := HeadAround(t, a, b, p, j);
      LongerStep(t, a, j);
    } else {
      ParsedNothing(t, a + "'" + b, p);
      NoLonger(t, a);
    }
  }

  /** What the j-th word contributes. */
  lemma {:induction false} HeadAround(t: Table, a: string, b: string, p: Reading, j: nat) returns (head: seq<Reading>)
    requires ValidTable(t) && '\'' !in a && j < |t|
    ensures Parsed(t, a + "'" + b, p, j) == head + Parsed(t, a + "'" + b, p, j + 1)
    ensures head != [] <==> b in t && t[j] <= a && |t[j]| < |a| && Segs(t, a[|t[j]|..], 0) != []
    ensures forall l :: l in head ==> LastThen(t, a, b, l)
    decreases |a|, 1
  {
    hide *;
    var s := a + "'" + b;
    WordBegins(t, a, b, j);
    head := [];
    if t[j] <= a {
      var rest := a[|t[j]|..];
      ParsedStep(t, s, p, j);
      CallAround(t, rest, b, p + [j]);
      head := Call(t, rest + "'" + b, p + [j]);
      forall l | l in head
        ensures LastThen(t, a, b, l)
      {
        LastThenLonger(t, a, |t[j]|, b, l);
      }
      if rest == "" {
        NothingToRead(t);
      }
    } else {
      ParsedSkip(t, s, p, j, j + 1);
    }
  }

  lemma NoLonger(t: Table, a: string)
    requires ValidTable(t)
    ensures !Longer(t, a, |t|)
  {
  }

  lemma LongerStep(t: Table, a: string, j: nat)
    requires j < |t| && ValidTable(t)
    ensures Longer(t, a, j) <==> (t[j] <= a && |t[j]| < |a| && Segs(t, a[|t[j]|..], 0) != []) || Longer(t, a, j + 1)
  {
  }

  lemma LastThenLonger(t: Table, a: string, n: nat, b: string, l: Reading)
    requires n <= |a| && LastThen(t, a[n..], b, l)
    ensures LastThen(t, a, b, l)
  {
    var rest, w := a[n..], t[l[0]];
    assert a[|a| - |w|..] == rest[|rest| - |w|..];
  }

  lemma {:induction false} NothingToReadFrom(t: Table, j: nat)
    requires ValidTable(t) && j <= |t|
    ensures Segs(t, "", j) == []
    decreases |t| - j
  {
    if j < |t| {
      NothingToReadFrom(t, j + 1);
    }
  }

  lemma NothingToRead(t: Table)
    requires ValidTable(t)
    ensures Segs(t, "", 0) == []
  {
    NothingToReadFrom(t, 0);
  }

  /** Some list that parse_pinyin_1 finds does not spell the text without its apostrophe. */
  ghost predicate WordsLost(t: Table, a: string, b: string)
    requires ValidTable(t)
  {
    exists l :: l in Call(t, a + "'" + b, []) && Indices(t, l) && Spell(t, l) != a + b
  }

  /** Words before an apostrophe are lost exactly when a word follows it and what stands before it can be
      read, but is not a word itself. */
  lemma LostExactly(t: Table, a: string, b: string)
    requires ValidTable(t) && '\'' !in a
    ensures WordsLost(t, a, b) <==> b in t && Segs(t, a, 0) != [] && a !in t
  {
    var s := a + "'" + b;
    CallAround(t, a, b, []);
    hide ValidTable, Segs, Call;
    if a in t && b in t {
      SplitDropsPrefix(t, IndexOf(t, a), IndexOf(t, b), []);
    }
    forall l | l in Call(t, s, [])
      ensures Indices(t, l) && (Spell(t, l) == a + b <==> a == t[l[0]])
    {
      SpellTwo(t, a, b, l);
    }
    if b in t && Segs(t, a, 0) != [] && a !in t {
      assert Call(t, s, [])[0] in Call(t, s, []);
    }
  }

  lemma SpellTwo(t: Table, a: string, b: string, l: Reading)
    requires LastThen(t, a, b, l)
    ensures Indices(t, l) && (Spell(t, l) == a + b <==> a == t[l[0]])
  {
    var w := t[l[0]];
    assert l[1..][1..] == [] && Spell(t, l[1..]) == b + Spell(t, []);
    assert Spell(t, l) == w + b;
    if w + b == a + b {
      assert |w| == |a| && (w + b)[..|w|] == (a + b)[..|a|];
    }
  }

  const SYLLABLES: Table := ["an", "wo", "xi"]

  lemma OnlyWord(t: Table, s: string, p: Reading, i: int)
    requires ValidTable(t) && 0 <= i < |t| && t[i] <= s && |t[i]| < |s|
    requires forall k :: 0 <= k < |t| && k != i ==> !(t[k] <= s)
    requires s[..Apostrophe(s)] !in t
    ensures Call(t, s, p) == Call(t, s[|t[i]|..], p + [i])
  {
    hide *;
    CallParses(t, s, p);
    ParsedSkip(t, s, p, 0, i);
    ParsedStep(t, s, p, i);
    ParsedSkip(t, s, p, i + 1, |t|);
    ParsedNothing(t, s, p);
    assert forall found: seq<Reading> :: found + [] == found;
  }

  lemma CallParses(t: Table, s: string, p: Reading)
    requires ValidTable(t) && s[..Apostrophe(s)] !in t
    ensures Call(t, s, p) == Parsed(t, s, p, 0)
  {
  }

  lemma WoxiAn()
    ensures "woxi'an" == "woxi" + "'" + "an" && "woxi'an"[2..] == "xi" + "'" + "an"
    ensures "woxi'an"[..4] == "woxi" && "wo" <= "woxi'an" && !("an" <= "woxi'an") && !("xi" <= "woxi'an")
  {
    assert "woxi'an"[0] == 'w' && "an"[0] == 'a' && "xi"[0] == 'x';
  }

  /** So "woxi'an" gives "xi an", without "wo". */
  lemma WoIsLost(t: Table)
    requires t == SYLLABLES
    ensures ValidTable(t) && Call(t, "woxi'an", []) == [[2, 0]] && WordsLost(t, "woxi", "an")
  {
    hide *;
    SyllablesAre(t);
    WoxiAn();
    ApostropheAt("woxi", "an");
    OnlyWord(t, "woxi'an", [], 1);
    SplitDropsPrefix(t, 2, 0, [1]);
    assert [] + [1] == [1];
    XiAn(t);
  }

  lemma SyllablesAre(t: Table)
    requires t == SYLLABLES
    ensures ValidTable(t) && |t| == 3 && t[0] == "an" && t[1] == "wo" && t[2] == "xi" && "woxi" !in t
  {
  }

  lemma XiAn(t: Table)
    requires |t| == 3 && t[0] == "an" && t[2] == "xi" && ValidTable(t)
    requires [2, 0] in Call(t, "woxi" + "'" + "an", [])
    ensures WordsLost(t, "woxi", "an")
  {
    hide Call, Spell;
    SpellTwo(t, "woxi", "an", [2, 0]);
  }
}
