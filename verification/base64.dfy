/** browserGtk/base64/base64.c: base64 as in sections 6.3 to 6.5 of RFC 2440, encoded and decoded
    in pieces of any size. Shifts and masks of the source are written as divisions and remainders
    by powers of two. */
module Base64 {
  import opened Chars
  import opened Memory

  type sextet = v: int | 0 <= v < 64

  const PAD_CHAR: byte := 61   // '='
  const BASE64_ERR := 0xFF
  const BASE64_IGN := 0xFE
  const BASE64_PAD := 0xFD

  // ---------- the tables ----------

  /** bin2asc: A-Z, a-z, 0-9, +, /. */
  function Bin2Asc(v: sextet): byte {
    if v < 26 then 65 + v
    else if v < 52 then 97 + (v - 26)
    else if v < 62 then 48 + (v - 52)
    else if v == 62 then 43 else 47
  }

  /** asc2bin, by the rule of base64_build_table. */
  function Asc2Bin(ch: byte): (c: byte)
    ensures c < 64 || c == BASE64_ERR || c == BASE64_IGN || c == BASE64_PAD
  {
    if 65 <= ch <= 90 then ch - 65
    else if 97 <= ch <= 122 then ch - 71
    else if 48 <= ch <= 57 then ch + 4
    else if ch == 43 then 62
    else if ch == 47 then 63
    else if ch == PAD_CHAR then BASE64_PAD
    else if 9 <= ch <= 13 || ch == 32 then BASE64_IGN
    else BASE64_ERR
  }

  lemma TablesAgree(v: sextet, ch: byte)
    ensures Asc2Bin(Bin2Asc(v)) == v
    ensures Asc2Bin(ch) < 64 ==> Bin2Asc(Asc2Bin(ch)) == ch
  {
  }

  /** The base64 alphabet, Table 1 of section 6.3. */
  const ALPHABET := UPPER + LOWER + "0123456789" + "+/"

  /** bin2asc is the alphabet. */
  lemma Bin2AscExact(v: sextet)
    ensures |ALPHABET| == 64 && Bin2Asc(v) as char == ALPHABET[v]
  {
    hide UPPER, LOWER;
    LettersAre(if v < 26 then v else if v < 52 then v - 26 else 0);
  }

  /** asc2bin reads the alphabet back, and tells white space, the pad character and all others apart. */
  lemma Asc2BinExact(ch: byte)
    ensures |ALPHABET| == 64 && forall v: sextet :: Asc2Bin(ch) == v <==> ch as char == ALPHABET[v]
    ensures Asc2Bin(ch) == BASE64_IGN <==> 9 <= ch <= 13 || ch as char == ' '
    ensures Asc2Bin(ch) == BASE64_PAD <==> ch as char == '='
    ensures Asc2Bin(ch) == BASE64_ERR <==>
            !(9 <= ch <= 13) && ch as char != ' ' && ch as char != '=' && ch as char !in ALPHABET
  {
    hide ALPHABET, Asc2Bin, Bin2Asc;
    Bin2AscExact(0);
    Asc2BinCases(ch);
    forall v: sextet
      ensures Asc2Bin(ch) == v <==> ch as char == ALPHABET[v]
    {
      Bin2AscExact(v);
      TablesAgree(v, ch);
    }
    if Asc2Bin(ch) < 64 {
      assert ch as char == ALPHABET[Asc2Bin(ch)];
    }
    if ch as char in ALPHABET {
      var v :| 0 <= v < |ALPHABET| && ALPHABET[v] == ch as char;
      Bin2AscExact(v);
      TablesAgree(v, ch);
    }
  }

  lemma Asc2BinCases(ch: byte)
    ensures Asc2Bin(ch) == BASE64_IGN <==> 9 <= ch <= 13 || ch == 32
    ensures Asc2Bin(ch) == BASE64_PAD <==> ch == 61
    ensures Asc2Bin(ch) < 64 || Asc2Bin(ch) == BASE64_IGN || Asc2Bin(ch) == BASE64_PAD || Asc2Bin(ch) == BASE64_ERR
    ensures Asc2Bin(ch) < 64 ==> !(9 <= ch <= 13) && ch != 32 && ch != 61
  {
  }

  // ---------- encoding ----------

  /** The four six-bit groups of 24 bits, high bits first. */
  function Sextets(n: int): (q: seq<sextet>)
    requires 0 <= n < 0x100_0000
    ensures |q| == 4
  {
    [n / 0x4_0000, n / 0x1000 % 64, n / 64 % 64, n % 64]
  }

  function Ascii(q: seq<sextet>): (s: seq<byte>)
    ensures |s| == |q| && forall i :: 0 <= i < |q| ==> s[i] == Bin2Asc(q[i])
  {
    seq(|q|, i requires 0 <= i < |q| => Bin2Asc(q[i]))
  }

  /** Three bytes as 24 bits. */
  function Group(a: byte, b: byte, c: byte): (n: int)
    ensures 0 <= n < 0x100_0000
  {
    a as int * 0x1_0000 + b as int * 0x100 + c as int
  }

  /** Section 6.3: 24-bit groups, and one or two pad characters for a last group of 16 or 8 bits. */
  function Encode(m: seq<byte>): seq<byte>
    decreases |m|
  {
    if m == [] then []
    else if |m| == 1 then Ascii(Sextets(Group(m[0], 0, 0))[..2]) + [PAD_CHAR, PAD_CHAR]
    else if |m| == 2 then Ascii(Sextets(Group(m[0], m[1], 0))[..3]) + [PAD_CHAR]
    else Ascii(Sextets(Group(m[0], m[1], m[2]))) + Encode(m[3..])
  }

  lemma {:induction false} EncodeLength(m: seq<byte>)
    ensures |Encode(m)| == (|m| + 2) / 3 * 4
    decreases |m|
  {
    hide Sextets, Group, Ascii;
    if |m| >= 3 {
      EncodeLength(m[3..]);
      assert |Encode(m)| == 4 + |Encode(m[3..])|;
      assert |m| + 2 == |m[3..]| + 2 + 3;
    }
  }

  /** The three examples of section 6.5: "FPucA9l+", "FPucA9k=" and "FPucAw==". */
  lemma Examples(six: seq<byte>)
    requires six == [0x14, 0xfb, 0x9c, 0x03, 0xd9, 0x7e]
    ensures Encode(six) == [70, 80, 117, 99, 65, 57, 108, 43]
    ensures Encode(six[..5]) == [70, 80, 117, 99, 65, 57, 107, 61]
    ensures Encode(six[..4]) == [70, 80, 117, 99, 65, 119, 61, 61]
  {
    hide Encode, Group, Sextets, Ascii, Bin2Asc;
    ExampleGroups();
    EncodeShort(six[..5][3..]);
    EncodeShort(six[..4][3..]);
    EncodeGroup(six);
    EncodeGroup(six[..5]);
    EncodeGroup(six[..4]);
    EncodeGroup(six[3..]);
    EncodeNone(six);
    assert six[3..] == [0x03, 0xd9, 0x7e] && six[3..][3..] == [] == six[..0];
    assert six[..5][3..] == [0x03, 0xd9] && six[..4][3..] == [0x03];
  }

  lemma EncodeGroup(m: seq<byte>)
    requires |m| >= 3
    ensures Encode(m) == Ascii(Sextets(Group(m[0], m[1], m[2]))) + Encode(m[3..])
  {
    hide Sextets, Group, Ascii, Bin2Asc;
    assert m != [] && |m| != 1 && |m| != 2;
  }

  lemma ExampleGroups()
    ensures Ascii(Sextets(Group(0x14, 0xfb, 0x9c))) == [70, 80, 117, 99]
    ensures Ascii(Sextets(Group(0x03, 0xd9, 0x7e))) == [65, 57, 108, 43]
    ensures Ascii(Sextets(Group(0x03, 0xd9, 0))[..3]) == [65, 57, 107]
    ensures Ascii(Sextets(Group(0x03, 0, 0))[..2]) == [65, 119]
  {
    FromDigits(0x14fb9c, 5, 15, 46, 28);
    FromDigits(0x03d97e, 0, 61, 37, 62);
    FromDigits(0x03d900, 0, 61, 36, 0);
    FromDigits(0x030000, 0, 48, 0, 0);
    hide Sextets;
  }

  function EncodeLen(srclen: nat): nat {
    (srclen + 2) / 3 * 4 + 1
  }

  /** Whole groups encode on their own. */
  lemma {:induction false} EncodeConcat(a: seq<byte>, b: seq<byte>)
    requires |a| % 3 == 0
    ensures Encode(a + b) == Encode(a) + Encode(b)
    decreases |a|
  {
    hide Sextets, Group, Ascii;
    if a == [] {
      assert a + b == b;
    } else {
      assert (a + b)[..3] == a[..3] && (a + b)[3..] == a[3..] + b;
      EncodeConcat(a[3..], b);
    }
  }

  /** The four indices that base64_encode_block shifts and masks out of three bytes. */
  function First(a: byte): sextet { a / 4 }

  function Second(a: byte, b: byte): sextet { a % 4 * 16 + b / 16 }

  function Third(b: byte, c: byte): sextet { b % 16 * 4 + c / 64 }

  function Fourth(c: byte): sextet { c % 64 }

  /** They are the four six-bit groups. */
  lemma QuadBits(a: byte, b: byte, c: byte)
    ensures Sextets(Group(a, b, c)) == [First(a), Second(a, b), Third(b, c), Fourth(c)]
  {
    FourDigits(a, b, c);
    hide First, Second, Third, Fourth, Group;
    FromDigits(Group(a, b, c), First(a), Second(a, b), Third(b, c), Fourth(c));
  }

  lemma FourDigits(a: byte, b: byte, c: byte)
    ensures Group(a, b, c) == 0x4_0000 * First(a) + 0x1000 * Second(a, b) + 64 * Third(b, c) + Fourth(c)
  {
  }

  lemma FromDigits(n: int, p: sextet, q: sextet, r: sextet, s: sextet)
    requires n == 0x4_0000 * p + 0x1000 * q + 64 * r + s
    ensures 0 <= n < 0x100_0000 && Sextets(n) == [p, q, r, s]
  {
    Cut(n, 0x1000 * p + 64 * q + r, s);
    Cut(0x1000 * p + 64 * q + r, 64 * p + q, r);
    Cut(64 * p + q, p, q);
    Cut4096(n, 64 * p + q, 64 * r + s);
    Cut262144(n, p, 0x1000 * q + 64 * r + s);
  }

  lemma Cut4096(n: int, high: int, low: int)
    requires n == 0x1000 * high + low && 0 <= low < 0x1000
    ensures n / 0x1000 == high
  {
  }

  lemma Cut262144(n: int, high: int, low: int)
    requires n == 0x4_0000 * high + low && 0 <= low < 0x4_0000
    ensures n / 0x4_0000 == high
  {
  }

  lemma Cut(n: int, high: int, low: int)
    requires n == 64 * high + low && 0 <= low < 64
    ensures n / 64 == high && n % 64 == low
  {
  }

  /** `data` was written at `at`, and nothing else was. */
  predicate Written(before: seq<byte>, after: seq<byte>, at: nat, data: seq<byte>) {
    at + |data| <= |before| && after == before[..at] + data + before[at + |data|..]
  }

  lemma WrittenMore(a: seq<byte>, b: seq<byte>, c: seq<byte>, at: nat, more: nat, data: seq<byte>, last: seq<byte>)
    requires Written(a, b, at, data) && more == at + |data| && Written(b, c, more, last)
    ensures Written(a, c, at, data + last)
  {
    assert b[..more] == a[..at] + data;
    assert b[more + |last|..] == a[more + |last|..];
  }

  lemma WrittenNone(a: seq<byte>, at: nat)
    requires at <= |a|
    ensures Written(a, a, at, [])
  {
  }

  /** Four characters through the moving pointer. */
  method Put4(dst: array<byte>, at: nat, q: seq<byte>)
    requires at + 4 <= dst.Length && |q| == 4
    modifies dst
    ensures Written(old(dst[..]), dst[..], at, q)
  {
    dst[at] := q[0];
    dst[at + 1] := q[1];
    dst[at + 2] := q[2];
    dst[at + 3] := q[3];
  }

  method PutNul(dst: array<byte>, at: nat)
    requires at < dst.Length
    modifies dst
    ensures Written(old(dst[..]), dst[..], at, [0])
  {
    dst[at] := 0;
  }

  /** The characters that base64_encode_block writes for the three bytes at i. */
  function Quad(src: seq<byte>, i: nat): (q: seq<byte>)
    requires i + 3 <= |src|
    ensures |q| == 4
  {
    [Bin2Asc(First(src[i])), Bin2Asc(Second(src[i], src[i + 1])), Bin2Asc(Third(src[i + 1], src[i + 2])),
     Bin2Asc(Fourth(src[i + 2]))]
  }

  /** The same for two bytes that are left, and for one. */
  function Two(src: seq<byte>, i: nat): (q: seq<byte>)
    requires i + 2 == |src|
    ensures |q| == 4
  {
    [Bin2Asc(First(src[i])), Bin2Asc(Second(src[i], src[i + 1])), Bin2Asc(Third(src[i + 1], 0)), PAD_CHAR]
  }

  function One(src: seq<byte>, i: nat): (q: seq<byte>)
    requires i + 1 == |src|
    ensures |q| == 4
  {
    [Bin2Asc(First(src[i])), Bin2Asc(Second(src[i], 0)), PAD_CHAR, PAD_CHAR]
  }

  lemma FullGroup(src: seq<byte>, i: nat)
    requires i % 3 == 0 && i + 3 <= |src|
    ensures Encode(src[..i + 3]) == Encode(src[..i]) + Quad(src, i)
  {
    hide Sextets, Group, Bin2Asc;
    var g := src[i..i + 3];
    assert src[..i + 3] == src[..i] + g;
    EncodeConcat(src[..i], g);
    QuadBits(src[i], src[i + 1], src[i + 2]);
    assert Encode(g) == Ascii(Sextets(Group(g[0], g[1], g[2]))) + Encode(g[3..]);
  }

  /** The characters for the one or two bytes that are left, if any. */
  function Last(src: seq<byte>, i: nat): (q: seq<byte>)
    requires i <= |src| < i + 3
    ensures |q| == if i < |src| then 4 else 0
  {
    if i + 2 == |src| then Two(src, i) else if i + 1 == |src| then One(src, i) else []
  }

  lemma LastGroup(src: seq<byte>, i: nat)
    requires i % 3 == 0 && i <= |src| < i + 3
    ensures Encode(src) == Encode(src[..i]) + Last(src, i)
  {
    hide Encode, One, Two;
    assert src == src[..i] + src[i..];
    EncodeConcat(src[..i], src[i..]);
    if |src| == i {
      assert src[..i] == src;
    } else if |src| == i + 1 {
      OneByte(src, i);
    } else {
      TwoBytes(src, i);
    }
  }

  lemma AsciiIs(q: seq<sextet>)
    requires |q| == 4
    ensures Ascii(q[..3]) == [Bin2Asc(q[0]), Bin2Asc(q[1]), Bin2Asc(q[2])]
    ensures Ascii(q[..2]) == [Bin2Asc(q[0]), Bin2Asc(q[1])]
  {
    hide Bin2Asc;
  }

  lemma EncodeShort(g: seq<byte>)
    ensures |g| == 2 ==> Encode(g) == Ascii(Sextets(Group(g[0], g[1], 0))[..3]) + [PAD_CHAR]
    ensures |g| == 1 ==> Encode(g) == Ascii(Sextets(Group(g[0], 0, 0))[..2]) + [PAD_CHAR, PAD_CHAR]
  {
    hide Sextets, Group, Ascii;
  }

  lemma ShortAscii(a: byte, b: byte, q: seq<sextet>)
    requires q == Sextets(Group(a, b, 0))
    ensures Ascii(q[..3]) == [Bin2Asc(First(a)), Bin2Asc(Second(a, b)), Bin2Asc(Third(b, 0))]
    ensures Ascii(q[..2]) == [Bin2Asc(First(a)), Bin2Asc(Second(a, b))]
  {
    hide *;
    QuadBits(a, b, 0);
    AsciiIs(q);
  }

  lemma Padded(x: byte, y: byte, z: byte, p: byte)
    ensures [x, y, z] + [p] == [x, y, z, p] && [x, y] + [p, p] == [x, y, p, p]
  {
  }

  lemma TwoBytes(src: seq<byte>, i: nat)
    requires i + 2 == |src|
    ensures Encode(src[i..]) == Two(src, i)
  {
    hide Encode, Bin2Asc, Ascii, Sextets, Group, First, Second, Third;
    var g := src[i..];
    EncodeShort(g);
    ShortAscii(src[i], src[i + 1], Sextets(Group(src[i], src[i + 1], 0)));
    Padded(Bin2Asc(First(src[i])), Bin2Asc(Second(src[i], src[i + 1])), Bin2Asc(Third(src[i + 1], 0)), PAD_CHAR);
  }

  lemma OneByte(src: seq<byte>, i: nat)
    requires i + 1 == |src|
    ensures Encode(src[i..]) == One(src, i)
  {
    hide Encode, Bin2Asc, Ascii, Sextets, Group, First, Second, Third;
    var g := src[i..];
    EncodeShort(g);
    ShortAscii(src[i], 0, Sextets(Group(src[i], 0, 0)));
    Padded(Bin2Asc(First(src[i])), Bin2Asc(Second(src[i], 0)), 0, PAD_CHAR);
  }

  lemma EncodeNone(src: seq<byte>)
    ensures Encode(src[..0]) == []
  {
  }

  lemma EncodeRoom(srclen: nat)
    ensures EncodeLen(srclen) == (srclen + 2) / 3 * 4 + 1
  {
  }

  lemma EncodeSome(src: seq<byte>)
    requires src != []
    ensures Encode(src) != []
  {
  }

  lemma QuadFits(srclen: nat, i: nat)
    requires i % 3 == 0 && i < srclen
    ensures i / 3 * 4 + 4 < EncodeLen(srclen) && (i + 3) / 3 * 4 == i / 3 * 4 + 4 && (i + 3) % 3 == 0
  {
  }

  /** base64_encode_block: the encoding of the whole source and a NUL, and nothing else, is written. */
  method EncodeBlock(dst: array<byte>, at: nat, src: seq<byte>) returns (dstlen: nat)
    requires at + EncodeLen(|src|) <= dst.Length
    modifies dst
    ensures dstlen == |Encode(src)| && Written(old(dst[..]), dst[..], at, Encode(src) + [0])
  {
    hide *;
    EncodeLength(src);
    EncodeRoom(|src|);
    EncodeNone(src);
    WrittenNone(dst[..], at);
    ghost var start := dst[..];
    var i, n := 0, 0;
    while |src| - i >= 3
      invariant 0 <= i <= |src| && i % 3 == 0 && n == i / 3 * 4 == |Encode(src[..i])|
      invariant Written(start, dst[..], at, Encode(src[..i]))
    {
      QuadFits(|src|, i);
      FullGroup(src, i);
      ghost var last := dst[..];
      Put4(dst, at + n, Quad(src, i));
      WrittenMore(start, last, dst[..], at, at + n, Encode(src[..i]), Quad(src, i));
      i, n := i + 3, n + 4;
    }
    LastGroup(src, i);
    if i < |src| {
      QuadFits(|src|, i);
    }
    ghost var whole := dst[..];
    var k := EncodeLast(dst, at + n, src, i);
    WrittenMore(start, whole, dst[..], at, at + n, Encode(src[..i]), Last(src, i) + [0]);
    Append3(Encode(src[..i]), Last(src, i), [0]);
    return n + k;
  }

  lemma Append3(a: seq<byte>, b: seq<byte>, c: seq<byte>)
    ensures a + (b + c) == a + b + c
  {
  }

  /** The two branches after the loop of base64_encode_block, and the NUL. */
  method EncodeLast(dst: array<byte>, at: nat, src: seq<byte>, i: nat) returns (n: nat)
    requires i <= |src| < i + 3 && at + (if i < |src| then 4 else 0) < dst.Length
    modifies dst
    ensures n == |Last(src, i)| && Written(old(dst[..]), dst[..], at, Last(src, i) + [0])
  {
    hide One, Two, Written;
    n := 0;
    WrittenNone(dst[..], at);
    if |src| - i == 2 {
      Put4(dst, at, Two(src, i));
      n := 4;
    } else if |src| - i == 1 {
      Put4(dst, at, One(src, i));
      n := 4;
    }
    ghost var whole := dst[..];
    PutNul(dst, at + n);
    WrittenMore(old(dst[..]), whole, dst[..], at, at + n, Last(src, i), [0]);
  }

  // ---------- encoding in pieces ----------

  function Full(n: nat): (k: nat)
    ensures k <= n && k % 3 == 0 && n - k < 3
  {
    Threefold(n / 3);
    n / 3 * 3
  }

  lemma Threefold(q: nat)
    ensures q * 3 % 3 == 0
  {
  }

  lemma FullIs(n: nat)
    ensures Full(n) == n / 3 * 3 && (n < 3 ==> Full(n) == 0)
  {
  }

  /** What the context holds after `fed`: the bytes that do not fill a group are pending, the rest
      was sent. */
  ghost predicate Pending(num: nat, buf: seq<byte>, fed: seq<byte>, sent: seq<byte>) {
    && |buf| == 3 && num == |fed| - Full(|fed|) && buf[..num] == fed[Full(|fed|)..]
    && sent == Encode(fed[..Full(|fed|)])
  }

  lemma PendingIs(num: nat, buf: seq<byte>, fed: seq<byte>, sent: seq<byte>)
    requires Pending(num, buf, fed, sent)
    ensures num < 3 && |buf| == 3
  {
  }

  /** More bytes: with the pending ones they make some full groups and a rest. */
  lemma PendingMore(num: nat, buf: seq<byte>, fed: seq<byte>, sent: seq<byte>, src: seq<byte>,
                    num': nat, buf': seq<byte>)
    requires Pending(num, buf, fed, sent) && |buf'| == 3
    requires var all := buf[..num] + src; num' == |all| - Full(|all|) && buf'[..num'] == all[Full(|all|)..]
    ensures var all := buf[..num] + src; Pending(num', buf', fed + src, sent + Encode(all[..Full(|all|)]))
  {
    hide Encode;
    var all, k, whole := buf[..num] + src, Full(|fed|), fed + src;
    assert whole == fed[..k] + all;
    assert Full(|whole|) == k + Full(|all|);
    assert whole[..Full(|whole|)] == fed[..k] + all[..Full(|all|)];
    assert whole[Full(|whole|)..] == all[Full(|all|)..];
    EncodeConcat(fed[..k], all[..Full(|all|)]);
  }

  /** The end: what was sent and the encoding of the rest are the encoding of everything. */
  lemma PendingEnds(num: nat, buf: seq<byte>, fed: seq<byte>, sent: seq<byte>)
    requires Pending(num, buf, fed, sent)
    ensures Encode(fed) == sent + Encode(buf[..num])
    ensures num == 0 ==> Encode(buf[..num]) == []
  {
    hide Encode;
    var k := Full(|fed|);
    assert fed == fed[..k] + fed[k..];
    EncodeConcat(fed[..k], fed[k..]);
    if num == 0 {
      EncodeNone(buf);
    }
  }

  /** A second block overwrites the NUL of the first. */
  lemma WrittenOver(a: seq<byte>, b: seq<byte>, c: seq<byte>, first: seq<byte>, second: seq<byte>)
    requires Written(a, b, 0, first + [0]) && Written(b, c, |first|, second + [0])
    ensures Written(a, c, 0, first + second + [0])
  {
    assert b[..|first|] == first;
    var n := |first| + |second| + 1;
    assert b[n..] == a[n..];
    assert c == first + (second + [0]) + a[n..];
  }

  /** The pending bytes are filled up to a group first, if the source has enough. */
  predicate FillsUp(num: nat, srclen: nat) {
    0 < num < 3 && srclen >= 3 - num
  }

  /** The groups that one update encodes: the filled-up pending one, then those of the source. */
  lemma GroupsOf(pending: seq<byte>, src: seq<byte>)
    requires |pending| < 3
    ensures var all, p := pending + src, 3 - |pending|;
            if FillsUp(|pending|, |src|) then
              && Encode(all[..Full(|all|)]) == Encode(pending + src[..p]) + Encode(src[p..][..Full(|src| - p)])
              && all[Full(|all|)..] == src[p..][Full(|src| - p)..]
            else
              && Encode(all[..Full(|all|)]) == Encode(src[..Full(|src|)])
              && all[Full(|all|)..] == pending + src[Full(|src|)..]
  {
    hide Encode, Full;
    if FillsUp(|pending|, |src|) {
      GroupsFilled(pending, src);
    } else {
      GroupsUnfilled(pending, src);
    }
  }

  /** What the two halves of an update send, and what they leave pending. */
  lemma TwoParts(was: seq<byte>, src: seq<byte>, kept: seq<byte>, numRead: nat, first: seq<byte>)
    requires |was| < 3
    requires if FillsUp(|was|, |src|) then
               numRead == 3 - |was| && kept == [] && first == Encode(was + src[..numRead])
             else
               numRead == 0 && kept == was && first == []
    ensures numRead <= |src|
    ensures var all, rest := was + src, src[numRead..];
            && first + Encode(rest[..Full(|rest|)]) == Encode(all[..Full(|all|)])
            && kept + rest[Full(|rest|)..] == all[Full(|all|)..]
  {
    hide Encode, Full;
    GroupsOf(was, src);
    var rest := src[numRead..];
    if FillsUp(|was|, |src|) {
      assert kept + rest[Full(|rest|)..] == rest[Full(|rest|)..];
    } else {
      assert rest == src && first + Encode(rest[..Full(|rest|)]) == Encode(rest[..Full(|rest|)]);
    }
  }

  lemma KeptFits(was: seq<byte>, src: seq<byte>, kept: seq<byte>, numRead: nat)
    requires |was| < 3 && numRead <= |src|
    requires if FillsUp(|was|, |src|) then numRead == 3 - |was| && kept == [] else numRead == 0 && kept == was
    ensures |kept| + |src[numRead..]| - Full(|src[numRead..]|) < 3
  {
  }

  lemma GroupsFilled(pending: seq<byte>, src: seq<byte>)
    requires FillsUp(|pending|, |src|)
    ensures var all, p := pending + src, 3 - |pending|;
            && Encode(all[..Full(|all|)]) == Encode(pending + src[..p]) + Encode(src[p..][..Full(|src| - p)])
            && all[Full(|all|)..] == src[p..][Full(|src| - p)..]
  {
    hide Encode;
    var all, p := pending + src, 3 - |pending|;
    var k := Full(|src| - p);
    assert Full(|all|) == 3 + k;
    assert all[..3 + k] == (pending + src[..p]) + src[p..][..k];
    assert all[3 + k..] == src[p..][k..];
    EncodeConcat(pending + src[..p], src[p..][..k]);
  }

  lemma GroupsUnfilled(pending: seq<byte>, src: seq<byte>)
    requires |pending| < 3 && !FillsUp(|pending|, |src|)
    ensures var all := pending + src;
            && all[..Full(|all|)] == src[..Full(|src|)]
            && all[Full(|all|)..] == pending + src[Full(|src|)..]
  {
    var all := pending + src;
    if |pending| == 0 {
      assert all == src;
    }
  }

  /** Room for what one update writes. */
  predicate Room(length: nat, num: nat, srclen: nat) {
    num + srclen >= 3 ==> (num + srclen) / 3 * 4 < length
  }

  lemma RoomAfterFill(length: nat, num: nat, srclen: nat)
    requires Room(length, num, srclen) && FillsUp(num, srclen)
    ensures EncodeLen(3) == 5 <= length && Room(length - 4, 0, srclen - (3 - num))
  {
  }

  lemma RoomForGroups(length: nat, at: nat, srclen: nat)
    requires at <= length && Room(length - at, 0, srclen) && srclen >= 3
    ensures at + EncodeLen(srclen / 3 * 3) <= length
  {
  }

  lemma RoomUnfilled(length: nat, num: nat, srclen: nat)
    requires Room(length, num, srclen) && !FillsUp(num, srclen) && num < 3
    ensures Room(length, 0, srclen)
  {
  }

  /** NUL-terminated text, or nothing at all. */
  function Text(s: seq<byte>): seq<byte> {
    if s == [] then [] else s + [0]
  }

  lemma TextWritten(a: seq<byte>, b: seq<byte>, c: seq<byte>, first: seq<byte>, second: seq<byte>)
    requires Written(a, b, 0, Text(first))
    requires if second == [] then c == b else Written(b, c, |first|, second + [0])
    ensures Written(a, c, 0, Text(first + second)) && |first + second| <= |c| && c[..|first + second|] == first + second
  {
    if second == [] {
      assert first + second == first;
    } else if first == [] {
      assert first + second == second;
    } else {
      WrittenOver(a, b, c, first, second);
    }
  }

  lemma TextOnly(a: seq<byte>, b: seq<byte>, text: seq<byte>)
    requires if text == [] then a == b else Written(a, b, 0, text + [0])
    ensures Written(a, b, 0, Text(text)) && |text| <= |b| && b[..|text|] == text
  {
  }

  /** base64_ctx. `fed` and `sent` are the bytes that went in and the characters that came out. */
  class Context {
    const buf: array<byte>
    var num: nat
    var pad: nat
    var finalized: bool
    ghost var fed: seq<byte>
    ghost var sent: seq<byte>

    /** base64_init. */
    constructor ()
      ensures num == 0 && pad == 0 && !finalized && fresh(buf) && fed == [] && sent == []
      ensures buf.Length == 3 && Pending(num, buf[..], fed, sent)
    {
      buf := new byte[3];
      num, pad, finalized := 0, 0, false;
      fed, sent := [], [];
    }

    /** "Encode leftover data if context buffer can be filled." */
    method EncodeLeftover(dst: array<byte>, src: seq<byte>) returns (numRead: nat, n: nat, ghost first: seq<byte>)
      requires buf.Length == 3 && num < 3 && dst != buf && Room(dst.Length, num, |src|)
      modifies this`num, buf, dst
      ensures n <= dst.Length && numRead <= |src| && Room(dst.Length - n, 0, |src| - numRead)
      ensures n == |first| && Written(old(dst[..]), dst[..], 0, Text(first))
      ensures var was := old(buf[..])[..old(num)];
              if FillsUp(old(num), |src|) then
                numRead == 3 - old(num) && num == 0 && first == Encode(was + src[..numRead])
              else
                numRead == 0 && first == [] && num == old(num) && buf[..] == old(buf[..]) && dst[..] == old(dst[..])
    {
      hide Written, Encode, Room;
      numRead, n, first := 0, 0, [];
      if num > 0 && |src| >= 3 - num {
        numRead := 3 - num;
        ghost var was := buf[..][..num];
        RoomAfterFill(dst.Length, num, |src|);
        Memory.MemCpy(buf, num, src[..numRead]);
        assert buf[..] == was + src[..numRead];
        EncodeLength(buf[..]);
        n := EncodeBlock(dst, 0, buf[..]);
        first := Encode(buf[..]);
        num := 0;
      } else {
        RoomUnfilled(dst.Length, num, |src|);
        WrittenNone(dst[..], 0);
      }
    }

    /** "Encode maximum amount of data w/o requiring a pad", then "Save leftover data". */
    method EncodeGroups(dst: array<byte>, at: nat, src: seq<byte>) returns (n: nat)
      requires buf.Length == 3 && dst != buf && at <= dst.Length && Room(dst.Length - at, 0, |src|)
      requires num + |src| - Full(|src|) < 3
      modifies this`num, buf, dst
      ensures var out := Encode(src[..Full(|src|)]);
              && n == |out|
              && (if out == [] then dst[..] == old(dst[..]) else Written(old(dst[..]), dst[..], at, out + [0]))
      ensures num == old(num) + |src| - Full(|src|) && buf[..num] == old(buf[..])[..old(num)] + src[Full(|src|)..]
    {
      hide *;
      n := 0;
      FullIs(|src|);
      EncodeNone(src);
      var rest := src;
      if |rest| >= 3 {
        var numRead := |rest| / 3 * 3;
        RoomForGroups(dst.Length, at, |src|);
        n := EncodeBlock(dst, at, rest[..numRead]);
        rest := rest[numRead..];
        EncodeSome(src[..numRead]);
      }
      if |rest| > 0 {
        Memory.MemCpy(buf, num, rest);
        num := num + |rest|;
      }
    }

    /** base64_encode_update: all full groups so far have been sent. An empty source leaves dstlen
        as it was. */
    method EncodeUpdate(dst: array<byte>, dstlen0: int, src: seq<byte>) returns (dstlen: int)
      requires Pending(num, buf[..], fed, sent) && !finalized && dst != buf && Room(dst.Length, num, |src|)
      modifies this`num, this`fed, this`sent, buf, dst
      ensures Pending(num, buf[..], fed, sent) && fed == old(fed) + src
      ensures src == [] ==> dstlen == dstlen0 && sent == old(sent) && dst[..] == old(dst[..])
      ensures src != [] ==> 0 <= dstlen <= dst.Length && sent == old(sent) + dst[..dstlen]
      ensures src != [] ==> Written(old(dst[..]), dst[..], 0, Text(dst[..dstlen]))
    {
      hide *;
      PendingIs(num, buf[..], fed, sent);
      if |src| == 0 {
        NoMore(num, buf[..], fed, sent);
        return dstlen0;
      }
      ghost var was, d0 := buf[..][..num], dst[..];
      var numRead, n;
      ghost var first;
      numRead, n, first := EncodeLeftover(dst, src);
      ghost var d1 := dst[..];
      var rest := src[numRead..];
      ghost var kept := buf[..][..num];
      KeptFits(was, src, kept, numRead);
      var more := EncodeGroups(dst, n, rest);
      ghost var second := Encode(rest[..Full(|rest|)]);
      TextWritten(d0, d1, dst[..], first, second);
      TwoParts(was, src, kept, numRead, first);
      PendingMore(old(num), old(buf[..]), fed, sent, src, num, buf[..]);
      fed, sent := fed + src, sent + (first + second);
      return n + more;
    }

    /** base64_encode_final: however the bytes were cut, everything sent is the encoding of
        everything fed. */
    method EncodeFinal(dst: array<byte>) returns (dstlen: nat)
      requires Pending(num, buf[..], fed, sent) && !finalized && dst != buf && (num > 0 ==> EncodeLen(3) <= dst.Length)
      modifies this`num, this`sent, this`finalized, dst
      ensures num == 0 && finalized && dstlen <= dst.Length
      ensures sent == old(sent) + dst[..dstlen] == Encode(fed)
      ensures Written(old(dst[..]), dst[..], 0, Text(dst[..dstlen]))
    {
      PendingIs(num, buf[..], fed, sent);
      PendingEnds(num, buf[..], fed, sent);
      hide Pending, Encode, Written, Text;
      ghost var d0, rest := dst[..], Encode(buf[..num]);
      WrittenNone(d0, 0);
      EncodeLength(buf[..num]);
      if num > 0 {
        dstlen := EncodeBlock(dst, 0, buf[..num]);
        num := 0;
      } else {
        dstlen := 0;
      }
      TextOnly(d0, dst[..], rest);
      sent := sent + dst[..dstlen];
      finalized := true;
    }
  }

  lemma NoMore(num: nat, buf: seq<byte>, fed: seq<byte>, sent: seq<byte>)
    ensures fed + [] == fed
  {
  }

  // ---------- encoding in pieces ----------

  function Flatten(chunks: seq<seq<byte>>): seq<byte> {
    if chunks == [] then [] else chunks[0] + Flatten(chunks[1..])
  }

  lemma FlattenNext(chunks: seq<seq<byte>>, i: nat, fed: seq<byte>)
    requires i < |chunks|
    ensures fed + Flatten(chunks[i..]) == fed + chunks[i] + Flatten(chunks[i + 1..])
  {
    assert chunks[i..][0] == chunks[i] && chunks[i..][1..] == chunks[i + 1..];
  }

  /** base64_init, base64_encode_update for each piece with a fresh target, base64_encode_final: the text is
      the encoding of the whole, however it was cut. */
  method EncodePieces(chunks: seq<seq<byte>>) returns (text: seq<byte>)
    ensures text == Encode(Flatten(chunks))
  {
    hide Pending, Encode, Written, Room, Text, Full;
    var x := new Context();
    text := [];
    assert chunks[0..] == chunks;
    for i := 0 to |chunks|
      invariant fresh(x) && fresh(x.buf) && !x.finalized && text == x.sent
      invariant Pending(x.num, x.buf[..], x.fed, x.sent) && x.fed + Flatten(chunks[i..]) == Flatten(chunks)
    {
      FlattenNext(chunks, i, x.fed);
      PendingIs(x.num, x.buf[..], x.fed, x.sent);
      var dst := new byte[EncodeLen(|chunks[i]| + 2)];
      RoomAlways(dst.Length, x.num, |chunks[i]|);
      var dstlen := x.EncodeUpdate(dst, 0, chunks[i]);
      text := text + dst[..dstlen];
    }
    PendingIs(x.num, x.buf[..], x.fed, x.sent);
    NoMore(x.num, x.buf[..], x.fed, x.sent);
    var dst := new byte[EncodeLen(3)];
    var dstlen := x.EncodeFinal(dst);
    text := text + dst[..dstlen];
  }

  lemma RoomAlways(length: nat, num: nat, srclen: nat)
    requires num < 3 && length >= EncodeLen(srclen + 2)
    ensures Room(length, num, srclen)
  {
  }
}
