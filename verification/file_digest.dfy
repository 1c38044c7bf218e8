/** MD5Str and MD5File of filesearch/util.c: the digest of a text, and of a file read 1024 bytes at a
    time, as hexadecimal digits. */
module FileDigest {
  import opened Chars
  import opened Streams
  import opened MD5

  function Digit(n: int): (c: char)
    requires 0 <= n < 16
  {
    "0123456789abcdef"[n]
  }

  /** Two digits a byte. */
  function Hex(s: seq<byte>): (r: string)
    ensures |r| == 2 * |s|
  {
    if s == [] then [] else Hex(s[..|s| - 1]) + [Digit(s[|s| - 1] / 16), Digit(s[|s| - 1] % 16)]
  }

  /** 0 to 9, then a to f. */
  lemma DigitExact(n: int)
    requires 0 <= n < 16
    ensures Digit(n) as int == if n < 10 then '0' as int + n else 'a' as int + n - 10
  {
  }

  /** The high digit comes first. */
  lemma HighDigitFirst(s: seq<byte>)
    requires s == [0x0f, 0xa9]
    ensures Hex(s) == "0fa9"
  {
    assert s[..1] == [0x0f] && s[..1][..0] == [];
    assert Hex([0x0f]) == Hex([]) + [Digit(0), Digit(15)];
    assert Hex(s) == Hex([0x0f]) + [Digit(10), Digit(9)];
  }

  lemma DigitInjective(m: int, n: int)
    requires 0 <= m < 16 && 0 <= n < 16 && Digit(m) == Digit(n)
    ensures m == n
  {
  }

  /** Different digests print differently. */
  lemma {:induction false} HexInjective(s: seq<byte>, u: seq<byte>)
    requires Hex(s) == Hex(u)
    ensures s == u
  {
    if s != [] {
      HexLast(s);
      HexLast(u);
      LastByte(s);
      LastByte(u);
      hide Hex, Digit;
      var b, c := s[|s| - 1], u[|u| - 1];
      SameEnds(Hex(s[..|s| - 1]), Digit(b / 16), Digit(b % 16), Hex(u[..|u| - 1]), Digit(c / 16), Digit(c % 16));
      DigitInjective(b / 16, c / 16);
      DigitInjective(b % 16, c % 16);
      HexInjective(s[..|s| - 1], u[..|u| - 1]);
    }
  }

  lemma HexLast(s: seq<byte>)
    requires s != []
    ensures var b := s[|s| - 1]; Hex(s) == Hex(s[..|s| - 1]) + [Digit(b / 16), Digit(b % 16)]
  {
    hide Digit;
  }

  lemma LastByte(s: seq<byte>)
    requires s != []
    ensures s == s[..|s| - 1] + [s[|s| - 1]]
  {
    hide Hex;
  }

  lemma SameEnds(a: string, x: char, y: char, b: string, u: char, v: char)
    requires a + [x, y] == b + [u, v]
    ensures a == b && x == u && y == v
  {
    var n := |a|;
    assert a == (a + [x, y])[..n] && b == (b + [u, v])[..n];
    assert x == (a + [x, y])[n] && u == (b + [u, v])[n] && y == (a + [x, y])[n + 1] && v == (b + [u, v])[n + 1];
  }

  /** MD5Print. */
  method MD5Print(digest: seq<byte>) returns (digestStr: string)
    ensures digestStr == Hex(digest)
  {
    digestStr := "";
    var i := 0;
    while i < |digest|
      invariant 0 <= i <= |digest| && digestStr == Hex(digest[..i])
    {
      assert digest[..i + 1][..i] == digest[..i];
      digestStr := digestStr + [Digit(digest[i] / 16), Digit(digest[i] % 16)];
      i := i + 1;
    }
    assert digest[..i] == digest;
  }

  method MD5Str(text: seq<byte>, block: Block) returns (md5: string)
    requires |text| < 0x1_0000_0000
    ensures md5 == Hex(Md5(block, text))
  {
    hide *;
    var context := new Context(block);
    FirstInputs(|text|);
    context.Update(text);
    assert [] + text == text;
    var digest := context.Final();
    md5 := MD5Print(digest);
  }

  lemma Stretches(data: seq<byte>, a: nat, b: nat, c: nat)
    requires a <= b <= c <= |data|
    ensures data[a..b] + data[b..c] == data[a..c]
  {
  }

  lemma AllRead(message: seq<byte>, buffer: seq<byte>, data: seq<byte>, start: nat, pos: nat)
    requires buffer == [] && start <= pos == |data| && message + buffer == data[start..pos]
    ensures message == data[start..]
  {
    assert message + buffer == message;
  }

  /** The digest of the whole file, whatever its length, although it is fed in pieces. */
  method MD5File(file: Stream, block: Block) returns (md5: string)
    requires file.pos <= |file.data|
    modifies file`pos, file`eof
    ensures md5 == Hex(Md5(block, file.data[old(file.pos)..]))
  {
    hide *;
    var context := new Context(block);
    ghost var start := file.pos;
    var len, buffer := file.Read(1, 1024);
    while len != 0
      invariant start <= file.pos <= |file.data| && context.block == block && fresh(context) && fresh(context.buffer)
      invariant Holds(block, context.state, context.count0, context.count1, context.buffer[..], context.message)
      invariant context.message + buffer == file.data[start..file.pos] && |buffer| == len <= 1024
      invariant len == 0 ==> file.pos == |file.data|
      modifies file`pos, file`eof, context, context.buffer
      decreases |file.data| - file.pos + len
    {
      ShortInputs(|context.message| % 64, len);
      context.Update(buffer);
      ghost var seen := file.pos;
      len, buffer := file.Read(1, 1024);
      Stretches(file.data, start, seen, file.pos);
    }
    AllRead(context.message, buffer, file.data, start, file.pos);
    var digest := context.Final();
    md5 := MD5Print(digest);
  }
}
