/** The index file of filesearch/write.c: the bytes that FileWriteVisitor writes in preorder, and
    the tree that readfile and build_dir make of them. */
module IndexStore {
  import opened Chars
  import opened FileTree
  import opened LittleEndian

  // ---------- one record ----------

  datatype Rec = Rec(frn: Key, parent: Key, dir: bool, name: Name, attrs: Attrs)

  function Bit(b: bool): int { if b then 1 else 0 }

  /** The first byte of `us`. */
  function Flags(a: Attrs, dir: bool): byte
    requires a.size1 < 16
  {
    Bit(a.readonly) + 2 * Bit(a.hidden) + 4 * Bit(a.system) + 8 * Bit(dir) + 16 * a.size1
  }

  /** Keys fit their w bytes, the name its length byte, the high part of the size its four bits. */
  predicate Storable(r: Rec, w: nat) {
    r.frn < Pow256(w) && r.parent < Pow256(w) && |r.name.bytes| <= 255 && r.attrs.size1 < 16
  }

  /** The two words `us` and `ut`. */
  function Words(r: Rec): (b: seq<byte>)
    requires |r.name.bytes| <= 255 && r.attrs.size1 < 16
    ensures |b| == 8
  {
    [Flags(r.attrs, r.dir), r.attrs.size2, |r.name.bytes|, r.name.strLen,
     r.attrs.time1, r.attrs.time2, r.attrs.time3, r.attrs.suffixType]
  }

  function RecBytes(r: Rec, w: nat): seq<byte>
    requires Storable(r, w)
  {
    Le(r.frn, w) + Le(r.parent, w) + Words(r) + r.name.bytes
  }

  datatype Parsed = End | Bad | Got(rec: Rec, used: nat)

  function AttrsOf(b: seq<byte>): Attrs
    requires |b| == 8
  {
    Attrs(b[0] % 2 == 1, b[0] / 2 % 2 == 1, b[0] / 4 % 2 == 1, b[0] / 16, b[1], b[4], b[5], b[6], b[7])
  }

  /** One turn of the loop of readfile on what is left of the file: too few bytes for two keys end
      the file, too few bytes after them are an error. */
  function ParseRec(rest: seq<byte>, w: nat): (p: Parsed)
    ensures p.Got? ==> p.used <= |rest| && p.used >= 8
  {
    if |rest| < 2 * w then End
    else if |rest| < 2 * w + 8 then Bad
    else
      var words := rest[2 * w..2 * w + 8];
      var len := words[2];
      if |rest| < 2 * w + 8 + len then Bad
      else
        Got(Rec(FromLe(rest[..w]), FromLe(rest[w..2 * w]), words[0] / 8 % 2 == 1,
                Name(rest[2 * w + 8..2 * w + 8 + len], words[3]), AttrsOf(words)),
            2 * w + 8 + len)
  }

  lemma FlagsRead(a: Attrs, dir: bool)
    requires a.size1 < 16
    ensures var f := Flags(a, dir);
            && (f % 2 == 1 <==> a.readonly) && (f / 2 % 2 == 1 <==> a.hidden) && (f / 4 % 2 == 1 <==> a.system)
            && (f / 8 % 2 == 1 <==> dir) && f / 16 == a.size1
  {
    var f := Flags(a, dir);
    Halve(f, Bit(a.readonly), Bit(a.hidden) + 2 * Bit(a.system) + 4 * Bit(dir) + 8 * a.size1);
    Halve(f / 2, Bit(a.hidden), Bit(a.system) + 2 * Bit(dir) + 4 * a.size1);
    Halve(f / 4, Bit(a.system), Bit(dir) + 2 * a.size1);
    Halve(f / 8, Bit(dir), a.size1);
  }

  lemma Halve(f: int, low: int, high: int)
    requires f == low + 2 * high && 0 <= low < 2
    ensures f % 2 == low && f / 2 == high
  {
  }

  /** Reading back one written record, whatever follows it. */
  lemma ParseRecBytes(r: Rec, w: nat, more: seq<byte>)
    requires Storable(r, w)
    ensures ParseRec(RecBytes(r, w) + more, w) == Got(r, |RecBytes(r, w)|)
  {
    var rest := RecBytes(r, w) + more;
    hide Flags, Le, FromLe;
    assert rest[..w] == Le(r.frn, w);
    assert rest[w..2 * w] == Le(r.parent, w);
    assert rest[2 * w..2 * w + 8] == Words(r);
    assert rest[2 * w + 8..2 * w + 8 + |r.name.bytes|] == r.name.bytes;
    LeRoundTrip(r.frn, w);
    LeRoundTrip(r.parent, w);
    FlagsRead(r.attrs, r.dir);
  }

  // ---------- a whole file ----------

  function AllBytes(rs: seq<Rec>, w: nat): seq<byte>
    requires forall r :: r in rs ==> Storable(r, w)
  {
    if rs == [] then [] else RecBytes(rs[0], w) + AllBytes(rs[1..], w)
  }

  datatype File = File(ok: bool, recs: seq<Rec>)

  /** The records that the loop sees, and whether it ends at the end of the file. */
  function ParseAll(rest: seq<byte>, w: nat): File
    decreases |rest|
  {
    match ParseRec(rest, w)
    case End => File(true, [])
    case Bad => File(false, [])
    case Got(r, used) => var f := ParseAll(rest[used..], w); File(f.ok, [r] + f.recs)
  }

  lemma {:induction false} ParseAllBytes(rs: seq<Rec>, w: nat)
    requires 0 < w && forall r :: r in rs ==> Storable(r, w)
    ensures ParseAll(AllBytes(rs, w), w) == File(true, rs)
  {
    if rs != [] {
      var more := AllBytes(rs[1..], w);
      ParseAllBytes(rs[1..], w);
      ParseRecBytes(rs[0], w, more);
      assert (RecBytes(rs[0], w) + more)[|RecBytes(rs[0], w)|..] == more;
    }
  }

  /** The layout of a record, on one whose fields all differ: keys of four bytes, a hidden directory "ab". */
  lemma RecordLayout(r: Rec)
    requires r.frn == 0x04030201 && r.parent == 0x08070605 && r.dir && r.name == Name([97, 98], 9)
    requires r.attrs == Attrs(false, true, false, 10, 11, 12, 13, 14, 15)
    ensures Storable(r, 4)
    ensures RecBytes(r, 4) == [1, 2, 3, 4, 5, 6, 7, 8, 170, 11, 2, 9, 12, 13, 14, 15, 97, 98]
  {
    assert Pow256(1) == 256 && Pow256(2) == 0x1_0000 && Pow256(3) == 0x100_0000 && Pow256(4) == 0x1_0000_0000;
    FourBytes(r.frn, 1, 2, 3, 4);
    FourBytes(r.parent, 5, 6, 7, 8);
    hide Le;
  }

  // ---------- a file that was cut off ----------

  /** The first k records are whole in the first n bytes, and the next one is not. */
  predicate CutAt(rs: seq<Rec>, w: nat, n: nat, k: nat)
    requires forall r :: r in rs ==> Storable(r, w)
  {
    && k <= |rs| && |AllBytes(rs[..k], w)| <= n
    && if k < |rs| then n < |AllBytes(rs[..k], w)| + |RecBytes(rs[k], w)| else n == |AllBytes(rs[..k], w)|
  }

  /** A file of which only the first n bytes are left is read as its first whole records if fewer bytes than
      two keys follow them, and refused if more do. */
  lemma {:induction false} CutFile(rs: seq<Rec>, w: nat, n: nat, k: nat)
    requires 0 < w && (forall r :: r in rs ==> Storable(r, w)) && n <= |AllBytes(rs, w)| && CutAt(rs, w, n, k)
    ensures var f := ParseAll(AllBytes(rs, w)[..n], w);
            && (f.ok <==> n < |AllBytes(rs[..k], w)| + 2 * w)
            && f.recs == rs[..k]
    decreases |rs|
  {
    hide RecBytes, ParseRec, Storable;
    if rs == [] {
      EmptyEnds(w);
      assert AllBytes(rs, w)[..n] == [];
    } else {
      var first, more := RecBytes(rs[0], w), AllBytes(rs[1..], w);
      if k == 0 {
        assert AllBytes(rs, w)[..n] == first[..n];
        CutRecord(rs[0], w, n);
      } else {
        var left := n - |first|;
        assert rs[..k][0] == rs[0] && rs[..k][1..] == rs[1..][..k - 1];
        assert AllBytes(rs, w)[..n] == first + more[..left];
        ParseRecBytes(rs[0], w, more[..left]);
        assert (first + more[..left])[|first|..] == more[..left];
        CutFile(rs[1..], w, left, k - 1);
      }
    }
  }

  lemma EmptyEnds(w: nat)
    requires 0 < w
    ensures ParseRec([], w) == End
  {
  }

  /** A record that was cut off. */
  lemma CutRecord(r: Rec, w: nat, n: nat)
    requires Storable(r, w) && n < |RecBytes(r, w)|
    ensures ParseRec(RecBytes(r, w)[..n], w) == if n < 2 * w then End else Bad
  {
    var rest := RecBytes(r, w)[..n];
    hide Flags, Le, FromLe;
    if n >= 2 * w + 8 {
      assert rest[2 * w..2 * w + 8] == Words(r);
    }
  }

  /** Every length cuts somewhere. */
  lemma {:induction false} CutPlace(rs: seq<Rec>, w: nat, n: nat) returns (k: nat)
    requires (forall r :: r in rs ==> Storable(r, w)) && n <= |AllBytes(rs, w)|
    ensures CutAt(rs, w, n, k)
    decreases |rs|
  {
    if rs == [] || n < |RecBytes(rs[0], w)| {
      k := 0;
    } else {
      k := CutPlace(rs[1..], w, n - |RecBytes(rs[0], w)|);
      k := k + 1;
      assert rs[..k][0] == rs[0] && rs[..k][1..] == rs[1..][..k - 1];
    }
  }

  lemma {:induction false} AllBytesConcat(a: seq<Rec>, b: seq<Rec>, w: nat)
    requires forall r :: r in a + b ==> Storable(r, w)
    ensures forall r :: r in a || r in b ==> r in a + b
    ensures AllBytes(a + b, w) == AllBytes(a, w) + AllBytes(b, w)
  {
    if a == [] {
      assert a + b == b;
    } else {
      assert (a + b)[1..] == a[1..] + b;
      AllBytesConcat(a[1..], b, w);
    }
  }
}
