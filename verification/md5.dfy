/** The streaming part of filesearch/md5c.c (RFC 1321, sections 3.1 to 3.5) for any block
    function: UINT4 is a 32-bit word, bytes and words are naturals, and shifts and masks of
    the source are written as divisions and remainders by powers of two. */
module MD5 {
  import opened Chars
  import opened LittleEndian
  import opened Memory

  type word = n: int | 0 <= n < 0x1_0000_0000

  /** The four words A, B, C, D. */
  datatype State = State(a: word, b: word, c: word, d: word)

  /** MD5Transform. */
  type Block = (State, seq<byte>) -> State

  const INIT := State(0x67452301, 0xefcdab89, 0x98badcfe, 0x10325476)

  // ---------- what a digest is ----------

  /** The state after the complete 64-byte blocks of m. */
  function Absorb(block: Block, s: State, m: seq<byte>): State
    decreases |m|
  {
    if |m| < 64 then s else Absorb(block, block(s, m[..64]), m[64..])
  }

  /** The bytes after the last complete block. */
  function Tail(m: seq<byte>): (t: seq<byte>)
    ensures |t| == |m| % 64
  {
    m[|m| - |m| % 64..]
  }

  function Zeros(n: nat): (z: seq<byte>)
    ensures |z| == n
  {
    seq(n, _ => 0)
  }

  /** The zero bytes that bring a message of n bytes and the byte 0x80 to 56 modulo 64. */
  function ZeroCount(n: nat): nat {
    (119 - n % 64) % 64
  }

  /** Sections 3.1 and 3.2: one bit, zeros, and the length in bits modulo 2^64, low byte first. */
  function Padding(n: nat): seq<byte> {
    [0x80] + Zeros(ZeroCount(n)) + Le(8 * n % 0x1_0000_0000_0000_0000, 8)
  }

  function Md5(block: Block, m: seq<byte>): seq<byte> {
    StateBytes(Absorb(block, INIT, m + Padding(|m|)))
  }

  /** Section 3.5: low byte of A first. */
  function StateBytes(s: State): (b: seq<byte>)
    ensures |b| == 16
  {
    Le(s.a, 4) + Le(s.b, 4) + Le(s.c, 4) + Le(s.d, 4)
  }

  lemma ZeroCountIs(n: nat)
    ensures ZeroCount(n) == if n % 64 <= 55 then 55 - n % 64 else 119 - n % 64
  {
  }

  /** The padding fills the last block, with the fewest zeros that do. */
  lemma PaddingFills(n: nat, k: nat)
    ensures (n + |Padding(n)|) % 64 == 0 && 9 <= |Padding(n)| <= 72
    ensures (n + 1 + k) % 64 == 56 ==> ZeroCount(n) <= k
  {
    ZeroCountIs(n);
    hide Le, Zeros, ZeroCount;
    assert |Padding(n)| == 9 + ZeroCount(n);
    FillsBlock(n, ZeroCount(n));
    if (n + 1 + k) % 64 == 56 {
      FewestZeros(n, ZeroCount(n), k);
    }
  }

  lemma FillsBlock(n: nat, z: nat)
    requires z == if n % 64 <= 55 then 55 - n % 64 else 119 - n % 64
    ensures (n + 9 + z) % 64 == 0
  {
    assert n + 9 + z == 64 * (n / 64 + if n % 64 <= 55 then 1 else 2);
  }

  lemma FewestZeros(n: nat, z: nat, k: nat)
    requires z == if n % 64 <= 55 then 55 - n % 64 else 119 - n % 64
    requires (n + 1 + k) % 64 == 56
    ensures z <= k
  {
    assert k == 64 * ((n + 1 + k) / 64 - n / 64) + 55 - n % 64;
  }

  // ---------- absorbing in pieces ----------

  lemma TailDrop(m: seq<byte>)
    requires |m| >= 64
    ensures Tail(m[64..]) == Tail(m)
  {
    assert |m[64..]| % 64 == |m| % 64;
  }

  lemma ShortTail(m: seq<byte>)
    requires |m| < 64
    ensures Tail(m) == m
  {
  }

  lemma {:induction false} AbsorbMore(block: Block, s: State, a: seq<byte>, b: seq<byte>)
    ensures Absorb(block, s, a + b) == Absorb(block, Absorb(block, s, a), Tail(a) + b)
    ensures Tail(a + b) == Tail(Tail(a) + b)
    decreases |a|
  {
    if |a| < 64 {
      ShortTail(a);
    } else {
      assert (a + b)[..64] == a[..64] && (a + b)[64..] == a[64..] + b;
      AbsorbMore(block, block(s, a[..64]), a[64..], b);
      TailDrop(a);
      TailDrop(a + b);
    }
  }

  // ---------- the bit count ----------

  /** count[1] and count[0] hold 8 times the length modulo 2^64. */
  ghost predicate CountIs(count0: word, count1: word, n: nat) {
    count0 + 0x1_0000_0000 * count1 == 8 * n % 0x1_0000_0000_0000_0000
  }

  lemma CountIndex(count0: word, count1: word, n: nat)
    requires CountIs(count0, count1, n)
    ensures count0 / 8 % 64 == n % 64
  {
    var k := 8 * n / 0x1_0000_0000_0000_0000;
    LowBits(n, count0, count1 + 0x1_0000_0000 * k);
  }

  lemma LowBits(n: nat, low: word, high: nat)
    requires 8 * n == low + 0x1_0000_0000 * high
    ensures low / 8 % 64 == n % 64
  {
    var c := n - 0x2000_0000 * high;
    assert low == 8 * c && n == c + 64 * (0x80_0000 * high);
    assert low / 8 == c;
    SameLow(c, 0x80_0000 * high);
  }

  lemma SameLow(c: nat, k: nat)
    ensures (c + 64 * k) % 64 == c % 64
  {
  }

  /** The two steps of MD5Update on count, with the carry of an overflowing addition. */
  lemma CountAdds(count0: word, count1: word, n: nat, len: word)
    requires CountIs(count0, count1, n)
    ensures var low := 8 * len % 0x1_0000_0000;
            var c0 := (count0 + low) % 0x1_0000_0000;
            var c1 := ((if c0 < low then (count1 + 1) % 0x1_0000_0000 else count1) + len / 0x2000_0000) % 0x1_0000_0000;
            CountIs(c0, c1, n + len)
  {
    var low: word := 8 * len % 0x1_0000_0000;
    var c0: word := (count0 + low) % 0x1_0000_0000;
    var high := count1 + (if c0 < low then 1 else 0) + len / 0x2000_0000;
    Carry(count0, low);
    EightTimes(len);
    assert count0 + 0x1_0000_0000 * count1 + 8 * len == c0 + 0x1_0000_0000 * high;
    WordAdds(count1 + 1, len / 0x2000_0000);
    TwoWords(c0, high);
    ModAdds(8 * n, 8 * len);
  }

  lemma Carry(a: word, b: word)
    ensures var c := (a + b) % 0x1_0000_0000; a + b == c + 0x1_0000_0000 * if c < b then 1 else 0
  {
  }

  lemma EightTimes(len: nat)
    ensures 8 * len == 8 * len % 0x1_0000_0000 + 0x1_0000_0000 * (len / 0x2000_0000)
  {
  }

  lemma WordAdds(a: nat, b: nat)
    ensures (a % 0x1_0000_0000 + b) % 0x1_0000_0000 == (a + b) % 0x1_0000_0000
  {
  }

  lemma TwoWords(low: word, high: nat)
    ensures (low + 0x1_0000_0000 * high) % 0x1_0000_0000_0000_0000 == low + 0x1_0000_0000 * (high % 0x1_0000_0000)
  {
    var k, h := high / 0x1_0000_0000, high % 0x1_0000_0000;
    assert low + 0x1_0000_0000 * high == 0x1_0000_0000_0000_0000 * k + (low + 0x1_0000_0000 * h);
    Remainder(k, low + 0x1_0000_0000 * h);
  }

  lemma Remainder(k: nat, r: nat)
    requires r < 0x1_0000_0000_0000_0000
    ensures (0x1_0000_0000_0000_0000 * k + r) % 0x1_0000_0000_0000_0000 == r
  {
  }

  lemma ModAdds(a: nat, b: nat)
    ensures (a % 0x1_0000_0000_0000_0000 + b) % 0x1_0000_0000_0000_0000 == (a + b) % 0x1_0000_0000_0000_0000
  {
    var q, c := a / 0x1_0000_0000_0000_0000, a % 0x1_0000_0000_0000_0000 + b;
    assert a + b == 0x1_0000_0000_0000_0000 * (q + c / 0x1_0000_0000_0000_0000) + c % 0x1_0000_0000_0000_0000;
  }

  // ---------- the context ----------

  /** The context of a message seen so far: its complete blocks are in the state, the rest is in
      the buffer, and the counters hold its length. */
  ghost predicate Holds(block: Block, s: State, count0: word, count1: word, buf: seq<byte>, m: seq<byte>) {
    && CountIs(count0, count1, |m|) && s == Absorb(block, INIT, m)
    && |buf| == 64 && buf[..|m| % 64] == Tail(m)
  }

  /** However a message was cut into updates, the context that holds it is the same, up to the
      stale bytes of the buffer. */
  lemma CutsDoNotMatter(block: Block, m: seq<byte>, s: State, count0: word, count1: word, buf: seq<byte>,
                        s': State, count0': word, count1': word, buf': seq<byte>)
    requires Holds(block, s, count0, count1, buf, m) && Holds(block, s', count0', count1', buf', m)
    ensures s == s' && count0 == count0' && count1 == count1' && buf[..|m| % 64] == buf'[..|m| % 64]
  {
    assert count0 + 0x1_0000_0000 * count1 == count0' + 0x1_0000_0000 * count1';
  }

  /** `i + 63` in the loop of MD5Update does not pass 2^32 at any i that the loop reaches. Inputs of
      at most 2^32 - 64 bytes are always within this. */
  predicate NoWrap(index: nat, len: nat) {
    len >= 64 - index ==> len - (len + index) % 64 <= 0x1_0000_0000 - 64
  }

  lemma ShortInputs(index: nat, len: nat)
    requires index < 64 && len <= 0x1_0000_0000 - 64
    ensures NoWrap(index, len)
  {
  }

  /** With nothing pending no input wraps; */
  lemma FirstInputs(len: nat)
    requires len < 0x1_0000_0000
    ensures NoWrap(0, len)
  {
    assert len == 64 * (len / 64) + len % 64;
  }

  /** with one byte pending the longest input does: all of it is read, and the guard lets 64 bytes more pass. */
  lemma LongestWraps(index: nat, len: nat)
    requires index == 1 && len == 0xFFFF_FFFF
    ensures !NoWrap(index, len) && len - (len + index) % 64 == len && Guard(len, len)
  {
  }

  /** The guard of the loop as unsigned arithmetic computes it. */
  predicate Guard(i: nat, len: nat) {
    (i + 63) % 0x1_0000_0000 < len
  }

  /** The loop visits i = 64 - index + 64 * k. Its guard means `64 more bytes are there` at all of
      them exactly when no sum wraps; otherwise it reads on past the end of the input. */
  lemma GuardIsExact(index: nat, len: nat, last: nat)
    requires index < 64 && len < 0x1_0000_0000 && len >= 64 - index && last == len - (len + index) % 64
    ensures NoWrap(index, len) ==> forall i :: 64 - index <= i <= last ==> (Guard(i, len) <==> i + 64 <= len)
    ensures !NoWrap(index, len) ==> Guard(last, len) && last + 64 > len && (last + index) % 64 == 0
  {
    if !NoWrap(index, len) {
      assert last + 63 - 0x1_0000_0000 < 64 <= len;
      assert len + index == 64 * ((len + index) / 64) + (len + index) % 64;
    }
  }

  /** A block boundary of the whole message, as seen from the input. */
  predicate Boundary(index: nat, i: nat) {
    (i + index) % 64 == 0
  }

  lemma BoundaryFirst(index: nat)
    requires index < 64
    ensures Boundary(index, 64 - index)
  {
  }

  lemma LoopStays(index: nat, len: nat, i: nat)
    requires index < 64 && len >= 64 - index && i <= len && Boundary(index, i)
    ensures i <= len - (len + index) % 64 && Boundary(index, i + 64)
  {
    var q, r := (i + index) / 64, (len + index) / 64;
    assert i + index == 64 * q && len + index == 64 * r + (len + index) % 64;
  }

  lemma LoopGuard(index: nat, len: nat, i: nat)
    requires index < 64 && len < 0x1_0000_0000 && 64 - index <= i <= len && Boundary(index, i) && NoWrap(index, len)
    ensures Guard(i, len) <==> i + 64 <= len
    ensures Boundary(index, i + 64)
  {
    LoopStays(index, len, i);
    GuardIsExact(index, len, len - (len + index) % 64);
  }

  lemma FirstBlock(block: Block, s: State, t: seq<byte>, input: seq<byte>)
    requires |t| < 64 <= |t| + |input|
    ensures var p := 64 - |t|;
            && Absorb(block, s, t + input) == Absorb(block, block(s, t + input[..p]), input[p..])
            && Tail(t + input) == Tail(input[p..])
  {
    var p := 64 - |t|;
    assert (t + input)[..64] == t + input[..p] && (t + input)[64..] == input[p..];
    TailDrop(t + input);
  }

  lemma NextBlock(block: Block, s: State, input: seq<byte>, i: nat)
    requires i + 64 <= |input|
    ensures Absorb(block, s, input[i..]) == Absorb(block, block(s, input[i..i + 64]), input[i + 64..])
    ensures Tail(input[i..]) == Tail(input[i + 64..])
  {
    assert input[i..][..64] == input[i..i + 64] && input[i..][64..] == input[i + 64..];
    TailDrop(input[i..]);
  }

  lemma LastBytes(block: Block, s: State, rest: seq<byte>)
    requires |rest| < 64
    ensures Absorb(block, s, rest) == s && Tail(rest) == rest
  {
  }

  lemma Joined(before: seq<byte>, s: seq<byte>)
    ensures before[..0] + s == s && s[0..] == s
  {
  }

  /** All complete blocks of the bytes are absorbed, and the others left over. */
  ghost predicate Taken(block: Block, s0: State, whole: seq<byte>, s: State, left: seq<byte>) {
    s == Absorb(block, s0, whole) && left == Tail(whole)
  }

  lemma AllTaken(block: Block, s0: State, t: seq<byte>, input: seq<byte>, s: State, i: nat)
    requires |t| < 64 <= |t| + |input| && i <= |input|
    requires var p := 64 - |t|;
             s == Absorb(block, block(s0, t + input[..p]), input[p..]) && input[i..] == Tail(input[p..])
    ensures Taken(block, s0, t + input, s, input[i..])
  {
    FirstBlock(block, s0, t, input);
  }

  lemma NoneTaken(block: Block, s: State, whole: seq<byte>)
    requires |whole| < 64
    ensures Taken(block, s, whole, s, whole)
  {
    LastBytes(block, s, whole);
  }

  lemma Updated(block: Block, m: seq<byte>, input: seq<byte>, s: State, count0: word, count1: word, buf: seq<byte>,
                left: seq<byte>)
    requires Taken(block, Absorb(block, INIT, m), Tail(m) + input, s, left)
    requires CountIs(count0, count1, |m| + |input|)
    requires |buf| == 64 && left <= buf
    ensures Holds(block, s, count0, count1, buf, m + input)
  {
    AbsorbMore(block, INIT, m, input);
    hide Absorb, CountIs, Tail;
  }

  lemma Held(block: Block, s: State, count0: word, count1: word, buf: seq<byte>, m: seq<byte>)
    requires Holds(block, s, count0, count1, buf, m)
    ensures CountIs(count0, count1, |m|) && s == Absorb(block, INIT, m) && |buf| == 64
    ensures count0 / 8 % 64 == |m| % 64 == |Tail(m)| && buf[..|m| % 64] == Tail(m)
  {
    CountIndex(count0, count1, |m|);
  }

  lemma StartsEmpty(block: Block, buf: seq<byte>)
    requires |buf| == 64
    ensures Holds(block, INIT, 0, 0, buf, [])
  {
  }

  class Context {
    const block: Block
    const buffer: array<byte>
    var state: State
    var count0: word
    var count1: word
    ghost var message: seq<byte>

    /** MD5Init. */
    constructor (block: Block)
      ensures this.block == block && message == [] && fresh(buffer)
      ensures StateBytes(state) == [0x01, 0x23, 0x45, 0x67, 0x89, 0xab, 0xcd, 0xef,
                                    0xfe, 0xdc, 0xba, 0x98, 0x76, 0x54, 0x32, 0x10]
      ensures Holds(block, state, count0, count1, buffer[..], message)
    {
      hide *;
      this.block := block;
      buffer := new byte[64];
      count0, count1 := 0, 0;
      state := INIT;
      message := [];
      new;
      StartsEmpty(block, buffer[..]);
      InitBytes();
    }

    /** "Update number of bits" in MD5Update. */
    method AddBits(len: word, ghost n: nat)
      requires CountIs(count0, count1, n)
      modifies this`count0, this`count1
      ensures CountIs(count0, count1, n + len)
    {
      CountAdds(count0, count1, n, len);
      hide CountIs;
      var low := 8 * len % 0x1_0000_0000;
      count0 := (count0 + low) % 0x1_0000_0000;
      if count0 < low {
        count1 := (count1 + 1) % 0x1_0000_0000;
      }
      count1 := (count1 + len / 0x2000_0000) % 0x1_0000_0000;
    }

    /** The loop of MD5Update over the complete blocks of the input from `start` on. */
    method TransformBlocks(input: seq<byte>, start: nat, ghost index: nat) returns (i: nat)
      requires index < 64 && start == 64 - index && start <= |input| < 0x1_0000_0000 && NoWrap(index, |input|)
      modifies this`state
      ensures start <= i <= |input|
      ensures state == Absorb(block, old(state), input[start..]) && input[i..] == Tail(input[start..])
    {
      hide *;
      i := start;
      BoundaryFirst(index);
      while Guard(i, |input|)
        invariant start <= i <= |input| && Boundary(index, i)
        invariant Absorb(block, state, input[i..]) == Absorb(block, old(state), input[start..])
        invariant Tail(input[i..]) == Tail(input[start..])
        decreases |input| - i
      {
        LoopGuard(index, |input|, i);
        NextBlock(block, state, input, i);
        state := block(state, input[i..i + 64]);
        i := i + 64;
      }
      LoopGuard(index, |input|, i);
      LastBytes(block, state, input[i..]);
    }

    /** MD5Update: the context of a message becomes the context of the message with `input` after it,
        wherever the message was cut before. */
    method Update(input: seq<byte>)
      requires Holds(block, state, count0, count1, buffer[..], message)
      requires |input| < 0x1_0000_0000 && NoWrap(|message| % 64, |input|)
      modifies this, buffer
      ensures message == old(message) + input
      ensures Holds(block, state, count0, count1, buffer[..], message)
    {
      hide *;
      Held(block, state, count0, count1, buffer[..], message);
      ghost var t := Tail(message);
      ghost var whole := t + input;
      var index := count0 / 8 % 64;
      AddBits(|input|, |message|);
      var partLen, i := 64 - index, 0;
      if |input| >= partLen {
        MemCpy(buffer, index, input[..partLen]);
        assert buffer[..64] == buffer[..];
        ghost var first := state;
        state := block(state, buffer[..]);
        i := TransformBlocks(input, partLen, index);
        AllTaken(block, first, t, input, state, i);
        index := 0;
        Joined(buffer[..], input[i..]);
      } else {
        NoneTaken(block, state, whole);
        Joined([], input);
      }
      MemCpy(buffer, index, input[i..]);
      Updated(block, message, input, state, count0, count1, buffer[..], buffer[..index + |input| - i]);
      message := message + input;
    }

    /** MD5Final: pads, appends the length and gives the digest of everything seen; the context is
        cleared. */
    method Final() returns (digest: seq<byte>)
      requires Holds(block, state, count0, count1, buffer[..], message)
      modifies this, buffer
      ensures digest == Md5(block, old(message))
      ensures state == State(0, 0, 0, 0) && count0 == 0 && count1 == 0 && buffer[..] == Zeros(64)
    {
      hide *;
      Held(block, state, count0, count1, buffer[..], message);
      var bits := Encode([count0, count1]);
      var index := count0 / 8 % 64;
      var padLen := if index < 56 then 56 - index else 120 - index;
      PaddingIs(|message|, count0, count1, padLen);
      ShortInputs(|message| % 64, padLen);
      PaddingByte(padLen);
      Update(([0x80] + Zeros(63))[..padLen]);
      ShortInputs(|message| % 64, 8);
      Update(bits);
      Held(block, state, count0, count1, buffer[..], message);
      digest := Encode([state.a, state.b, state.c, state.d]);
      Digested(block, old(message), padLen, bits, state);
      state := State(0, 0, 0, 0);
      count0, count1 := 0, 0;
      MemSet(buffer);
      message := [];
    }
  }

  /** MD5_memset with 0. */
  method MemSet(output: array<byte>)
    modifies output
    ensures output[..] == Zeros(output.Length)
  {
    var i := 0;
    while i < output.Length
      invariant 0 <= i <= output.Length
      invariant output[..i] == Zeros(i)
    {
      output[i] := 0;
      i := i + 1;
    }
  }

  // ---------- words and bytes ----------

  /** Each word as four bytes, low byte first. */
  function WordBytes(ws: seq<word>): (b: seq<byte>)
    ensures |b| == 4 * |ws|
  {
    if ws == [] then [] else WordBytes(ws[..|ws| - 1]) + Le(ws[|ws| - 1], 4)
  }

  lemma LeFour(w: word)
    ensures Le(w, 4) == [w % 256, w / 0x100 % 256, w / 0x1_0000 % 256, w / 0x100_0000 % 256]
  {
    assert Le(w, 4) == [w % 256] + Le(w / 256, 3);
    assert Le(w / 256, 3) == [w / 256 % 256] + Le(w / 256 / 256, 2);
    assert Le(w / 256 / 256, 2) == [w / 256 / 256 % 256] + Le(w / 256 / 256 / 256, 1);
    assert Le(w / 256 / 256 / 256, 1) == [w / 256 / 256 / 256 % 256];
  }

  /** Encode. */
  method Encode(input: seq<word>) returns (output: seq<byte>)
    ensures output == WordBytes(input)
  {
    var i := 0;
    output := [];
    while i < |input|
      invariant 0 <= i <= |input| && output == WordBytes(input[..i])
    {
      var w := input[i];
      LeFour(w);
      assert input[..i + 1][..i] == input[..i];
      output := output + [w % 256, w / 0x100 % 256, w / 0x1_0000 % 256, w / 0x100_0000 % 256];
      i := i + 1;
    }
    assert input[..i] == input;
  }

  function Word4(b: seq<byte>): word
    requires |b| == 4
  {
    b[0] as int + 0x100 * (b[1] as int) + 0x1_0000 * (b[2] as int) + 0x100_0000 * (b[3] as int)
  }

  /** Decode: it gives back the words that were encoded. */
  method Decode(input: seq<byte>) returns (output: seq<word>)
    requires |input| % 4 == 0
    ensures WordBytes(output) == input
  {
    hide Le, Word4;
    var j := 0;
    output := [];
    while j < |input|
      invariant 0 <= j <= |input| && j % 4 == 0 && WordBytes(output) == input[..j]
    {
      var w := Word4(input[j..j + 4]);
      Word4Bytes(input[j..j + 4]);
      assert (output + [w])[..|output|] == output;
      assert input[..j + 4] == input[..j] + input[j..j + 4];
      output := output + [w];
      j := j + 4;
    }
  }

  lemma Word4Bytes(b: seq<byte>)
    requires |b| == 4
    ensures Le(Word4(b), 4) == b
  {
    var x2: nat := b[2] as int + 256 * (b[3] as int);
    var x1: nat := b[1] as int + 256 * x2;
    LowByte(Word4(b), b[0], x1);
    LowByte(x1, b[1], x2);
    LowByte(x2, b[2], b[3]);
    assert Le(b[3], 1) == [b[3]];
    assert b == [b[0]] + ([b[1]] + ([b[2]] + [b[3]]));
  }

  lemma LowByte(n: nat, b: byte, high: nat)
    requires n == b as int + 256 * high
    ensures forall w: nat :: w > 0 ==> Le(n, w) == [b] + Le(high, w - 1)
  {
    assert n % 256 == b && n / 256 == high;
  }

  /** Two lists of words with the same bytes are the same, so Decode undoes Encode. */
  lemma {:induction false} WordBytesInjective(us: seq<word>, vs: seq<word>)
    requires WordBytes(us) == WordBytes(vs)
    ensures us == vs
  {
    if us != [] {
      SplitLast(us);
      SplitLast(vs);
      LastWord(us);
      LastWord(vs);
      var a, b := WordBytes(us[..|us| - 1]), WordBytes(vs[..|vs| - 1]);
      var u, v := us[|us| - 1], vs[|vs| - 1];
      hide WordBytes, Le;
      SameParts(a, Le(u, 4), b, Le(v, 4));
      WordBytesInjective(us[..|us| - 1], vs[..|vs| - 1]);
      LeRoundTrip(u, 4);
      LeRoundTrip(v, 4);
      PowFour();
    }
  }

  lemma SplitLast(us: seq<word>)
    requires us != []
    ensures us == us[..|us| - 1] + [us[|us| - 1]]
  {
    hide WordBytes;
  }

  lemma LastWord(us: seq<word>)
    requires us != []
    ensures WordBytes(us) == WordBytes(us[..|us| - 1]) + Le(us[|us| - 1], 4)
  {
    hide Le;
    var init, last := us[..|us| - 1], us[|us| - 1];
    assert WordBytes(us) == WordBytes(init) + Le(last, 4);
  }

  lemma SameParts(a: seq<byte>, u: seq<byte>, b: seq<byte>, v: seq<byte>)
    requires a + u == b + v && |a| == |b|
    ensures a == b && u == v
  {
    assert a == (a + u)[..|a|] && b == (b + v)[..|b|];
    assert u == (a + u)[|a|..] && v == (b + v)[|b|..];
  }

  lemma PowFour()
    ensures Pow256(4) == 0x1_0000_0000
  {
    assert Pow256(1) == 256 && Pow256(2) == 0x1_0000 && Pow256(3) == 0x100_0000;
  }

  // ---------- the end of a message ----------

  lemma PaddingByte(padLen: nat)
    requires 1 <= padLen <= 64
    ensures |[0x80] + Zeros(63)| == 64 && ([0x80] + Zeros(63))[..padLen] == [0x80] + Zeros(padLen - 1)
  {
  }

  lemma CountBytes(n: nat, count0: word, count1: word)
    requires CountIs(count0, count1, n)
    ensures Le(8 * n % 0x1_0000_0000_0000_0000, 8) == Le(count0, 4) + Le(count1, 4)
  {
    hide Le;
    PowFour();
    LeConcat(count0, count1, 4, 4);
  }

  lemma PadLength(n: nat, padLen: nat)
    requires padLen == if n % 64 < 56 then 56 - n % 64 else 120 - n % 64
    ensures 1 <= padLen <= 64 && ZeroCount(n) == padLen - 1
  {
  }

  /** The initial state of section 3.3, as bytes, low byte first. */
  lemma InitBytes()
    ensures StateBytes(INIT) == [0x01, 0x23, 0x45, 0x67, 0x89, 0xab, 0xcd, 0xef,
                                 0xfe, 0xdc, 0xba, 0x98, 0x76, 0x54, 0x32, 0x10]
  {
    hide Le;
    FourBytes(0x67452301, 0x01, 0x23, 0x45, 0x67);
    FourBytes(0xefcdab89, 0x89, 0xab, 0xcd, 0xef);
    FourBytes(0x98badcfe, 0xfe, 0xdc, 0xba, 0x98);
    FourBytes(0x10325476, 0x76, 0x54, 0x32, 0x10);
  }

  /** The block that the message "abc" is padded to: a one bit, zeros, and 24, the number of its bits. */
  lemma AbcPadded(p: seq<byte>)
    requires p == [0x61, 0x62, 0x63] + Padding(3)
    ensures |p| == 64 && p[..4] == [0x61, 0x62, 0x63, 0x80] && p[56] == 24
    ensures forall i :: 4 <= i < 64 && i != 56 ==> p[i] == 0
  {
    PaddingOfThree();
    hide Padding;
    AbcParts(p, Zeros(52), Zeros(7));
  }

  lemma PaddingOfThree()
    ensures Padding(3) == [0x80] + Zeros(52) + ([24] + Zeros(7))
  {
    assert ZeroCount(3) == 52 && 8 * 3 % 0x1_0000_0000_0000_0000 == 24;
    hide Le, ZeroCount, Zeros;
    LeStep(24, 8, 24, 0);
    LeZero(7);
  }

  lemma {:induction false} LeZero(w: nat)
    ensures Le(0, w) == Zeros(w)
  {
    if w > 0 {
      LeStep(0, w, 0, 0);
      LeZero(w - 1);
    }
  }

  lemma AbcParts(p: seq<byte>, y: seq<byte>, z: seq<byte>)
    requires |y| == 52 && |z| == 7 && (forall i :: 0 <= i < 52 ==> y[i] == 0) && forall i :: 0 <= i < 7 ==> z[i] == 0
    requires p == [0x61, 0x62, 0x63] + ([0x80] + y + ([24] + z))
    ensures |p| == 64 && p[..4] == [0x61, 0x62, 0x63, 0x80] && p[56] == 24
    ensures forall i :: 4 <= i < 64 && i != 56 ==> p[i] == 0
  {
    forall i | 4 <= i < 64 && i != 56
      ensures p[i] == 0
    {
      assert p[i] == if i < 56 then y[i - 4] else z[i - 57];
    }
  }

  /** The number of padding bytes, and the saved count as bytes. */
  lemma PaddingIs(n: nat, count0: word, count1: word, padLen: nat)
    requires CountIs(count0, count1, n)
    requires padLen == if n % 64 < 56 then 56 - n % 64 else 120 - n % 64
    ensures 1 <= padLen <= 64 && Padding(n) == [0x80] + Zeros(padLen - 1) + WordBytes([count0, count1])
  {
    PadLength(n, padLen);
    CountBytes(n, count0, count1);
    TwoWordBytes(count0, count1);
    hide Le, Zeros, ZeroCount, CountIs, WordBytes;
  }

  lemma TwoWordBytes(a: word, b: word)
    ensures WordBytes([a, b]) == Le(a, 4) + Le(b, 4)
  {
    assert [a, b][..1] == [a] && [a][..0] == [];
    assert WordBytes([a]) == Le(a, 4);
  }

  lemma Digested(block: Block, m: seq<byte>, padLen: nat, bits: seq<byte>, s: State)
    requires 1 <= padLen && Padding(|m|) == [0x80] + Zeros(padLen - 1) + bits
    requires s == Absorb(block, INIT, m + ([0x80] + Zeros(padLen - 1)) + bits)
    ensures WordBytes([s.a, s.b, s.c, s.d]) == Md5(block, m)
  {
    hide Le, Zeros, Padding, Absorb;
    assert m + ([0x80] + Zeros(padLen - 1)) + bits == m + Padding(|m|);
    var ws := [s.a, s.b, s.c, s.d];
    assert ws[..3] == [s.a, s.b, s.c] && ws[..3][..2] == [s.a, s.b];
    TwoWordBytes(s.a, s.b);
    assert WordBytes([s.a, s.b, s.c]) == WordBytes([s.a, s.b]) + Le(s.c, 4);
  }
}
