/** The decoder of browserGtk/base64/base64.c, against the encoder: sections 6.4 and 6.5 of RFC 2440. */
module Base64Decode {
  import opened Chars
  import opened Base64

  /** The state of the decoder: sextets into the current group, pad characters seen, the high bits of
      the next byte, the bytes written, and whether a character was refused. */
  datatype Dec = Dec(num: nat, pad: nat, cur: byte, out: seq<byte>, err: bool)

  const START := Dec(0, 0, 0, [], false)

  /** The bits still to come in the next byte are zero. */
  predicate Clean(d: Dec) {
    && d.num < 4 && d.pad <= 2
    && (d.num == 0 ==> d.cur == 0) && (d.num == 1 ==> d.cur % 4 == 0)
    && (d.num == 2 ==> d.cur % 16 == 0) && (d.num == 3 ==> d.cur % 64 == 0)
  }

  /** The four cases of the switch of base64_decode_update. */
  function Push(d: Dec, v: sextet): (r: Dec)
    requires Clean(d)
    ensures Clean(r)
  {
    match d.num
    case 0 => d.(num := 1, cur := v * 4)
    case 1 => d.(num := 2, out := d.out + [d.cur + v / 16], cur := v % 16 * 16)
    case 2 => d.(num := 3, out := d.out + [d.cur + v / 4], cur := v % 4 * 64)
    case _ => d.(num := 0, out := d.out + [d.cur + v], cur := 0)
  }

  /** One character. */
  function Step(d: Dec, ch: byte): (r: Dec)
    requires Clean(d)
    ensures Clean(r)
  {
    var c := Asc2Bin(ch);
    if d.err || c == BASE64_IGN then d
    else if c == BASE64_PAD && d.pad < 2 then d.(pad := d.pad + 1)
    else if c >= 64 || d.pad > 0 then d.(err := true)
    else Push(d, c)
  }

  function Run(d: Dec, s: seq<byte>): (r: Dec)
    requires Clean(d)
    ensures Clean(r)
    decreases |s|
  {
    if s == [] then d else Run(Step(d, s[0]), s[1..])
  }

  lemma {:induction false} RunConcat(d: Dec, a: seq<byte>, b: seq<byte>)
    requires Clean(d)
    ensures Run(d, a + b) == Run(Run(d, a), b)
    decreases |a|
  {
    if a == [] {
      assert a + b == b;
    } else {
      assert (a + b)[0] == a[0] && (a + b)[1..] == a[1..] + b;
      RunConcat(Step(d, a[0]), a[1..], b);
    }
  }

  /** The characters that are not white space. */
  function Strip(s: seq<byte>): seq<byte> {
    if s == [] then [] else (if Asc2Bin(s[0]) == BASE64_IGN then [] else [s[0]]) + Strip(s[1..])
  }

  lemma {:induction false} RunStrip(d: Dec, s: seq<byte>)
    requires Clean(d)
    ensures Run(d, s) == Run(d, Strip(s))
    decreases |s|
  {
    if s != [] {
      RunStrip(Step(d, s[0]), s[1..]);
      if Asc2Bin(s[0]) != BASE64_IGN {
        assert Strip(s)[0] == s[0] && Strip(s)[1..] == Strip(s[1..]);
      } else {
        assert Strip(s) == Strip(s[1..]);
      }
    }
  }

  lemma {:induction false} RunStopped(d: Dec, s: seq<byte>)
    requires Clean(d) && d.err
    ensures Run(d, s) == d
    decreases |s|
  {
    if s != [] {
      RunStopped(d, s[1..]);
    }
  }

  // ---------- decoding an encoding ----------

  /** Four sextets give back the three bytes they were cut from. */
  lemma PushGroup(d: Dec, a: byte, b: byte, c: byte)
    requires Clean(d) && d.num == 0
    ensures var d1 := Push(d, First(a));
            var d2 := Push(d1, Second(a, b));
            var d3 := Push(d2, Third(b, c));
            && d2.out == d.out + [a] && d2.num == 2
            && d3.out == d.out + [a, b] && d3.num == 3
            && Push(d3, Fourth(c)) == d.(out := d.out + [a, b, c])
  {
    OneByte(a, b / 16);
    TwoBytes(b, c / 64);
    var d2 := Push(Push(d, First(a)), Second(a, b));
    assert d2.out == d.out + [a] && d2.cur == b / 16 * 16;
    var d3 := Push(d2, Third(b, c));
    assert d3.out == d.out + [a] + [b] && d3.cur == c / 64 * 64;
  }

  lemma OneByte(a: byte, high: int)
    requires 0 <= high < 16
    ensures a / 4 * 4 + (a % 4 * 16 + high) / 16 == a && (a % 4 * 16 + high) % 16 == high
  {
  }

  lemma TwoBytes(b: byte, high: int)
    requires 0 <= high < 4
    ensures b / 16 * 16 + (b % 16 * 4 + high) / 4 == b && (b % 16 * 4 + high) % 4 == high
  {
  }

  lemma RunData(d: Dec, v: sextet, rest: seq<byte>)
    requires Clean(d) && d.pad == 0 && !d.err
    ensures Run(d, [Bin2Asc(v)] + rest) == Run(Push(d, v), rest)
  {
    TablesAgree(v, 0);
    assert ([Bin2Asc(v)] + rest)[1..] == rest;
    hide Push, Bin2Asc, Asc2Bin;
    assert Step(d, Bin2Asc(v)) == Push(d, v);
  }

  lemma PushKeeps(d: Dec, v: sextet)
    requires Clean(d)
    ensures Push(d, v).pad == d.pad && Push(d, v).err == d.err && Push(d, v).num == (d.num + 1) % 4
    ensures |Push(d, v).out| == |d.out| + if d.num == 0 then 0 else 1
  {
  }

  lemma RunThree(d: Dec, u: sextet, v: sextet, w: sextet, rest: seq<byte>)
    requires Clean(d) && d.pad == 0 && !d.err
    ensures Run(d, [Bin2Asc(u), Bin2Asc(v)] + rest) == Run(Push(Push(d, u), v), rest)
    ensures Run(d, [Bin2Asc(u), Bin2Asc(v), Bin2Asc(w)] + rest) == Run(Push(Push(Push(d, u), v), w), rest)
  {
    hide Push, Bin2Asc, Run;
    PushKeeps(d, u);
    PushKeeps(Push(d, u), v);
    RunData(d, u, [Bin2Asc(v)] + rest);
    RunData(d, u, [Bin2Asc(v)] + ([Bin2Asc(w)] + rest));
    RunData(Push(d, u), v, rest);
    RunData(Push(d, u), v, [Bin2Asc(w)] + rest);
    RunData(Push(Push(d, u), v), w, rest);
    assert [Bin2Asc(u), Bin2Asc(v)] + rest == [Bin2Asc(u)] + ([Bin2Asc(v)] + rest);
    assert [Bin2Asc(u), Bin2Asc(v), Bin2Asc(w)] + rest == [Bin2Asc(u)] + ([Bin2Asc(v)] + ([Bin2Asc(w)] + rest));
  }

  lemma RunPads(d: Dec)
    requires Clean(d) && d.pad == 0 && !d.err
    ensures Run(d, [PAD_CHAR]) == d.(pad := 1) && Run(d, [PAD_CHAR, PAD_CHAR]) == d.(pad := 2)
  {
    assert Step(d, PAD_CHAR) == d.(pad := 1);
    assert Step(d.(pad := 1), PAD_CHAR) == d.(pad := 2);
    assert [PAD_CHAR][1..] == [] && [PAD_CHAR, PAD_CHAR][1..] == [PAD_CHAR];
    assert Run(d.(pad := 1), [PAD_CHAR]) == Run(d.(pad := 2), []);
  }

  /** The characters of one group, whatever follows. */
  lemma RunGroup(d: Dec, a: byte, b: byte, c: byte, rest: seq<byte>)
    requires Clean(d) && d.num == 0 && d.pad == 0 && !d.err
    ensures Run(d, Ascii(Sextets(Group(a, b, c))) + rest) == Run(d.(out := d.out + [a, b, c]), rest)
  {
    hide *;
    QuadBits(a, b, c);
    PushGroup(d, a, b, c);
    var q := Sextets(Group(a, b, c));
    AsciiFour(q);
    FourSteps(d, q[0], q[1], q[2], q[3], rest);
  }

  lemma AsciiFour(q: seq<sextet>)
    requires |q| == 4
    ensures Ascii(q) == [Bin2Asc(q[0]), Bin2Asc(q[1]), Bin2Asc(q[2]), Bin2Asc(q[3])]
  {
    hide Bin2Asc;
  }

  lemma FourSteps(d: Dec, u: sextet, v: sextet, w: sextet, x: sextet, rest: seq<byte>)
    requires Clean(d) && d.pad == 0 && !d.err
    ensures Run(d, [Bin2Asc(u), Bin2Asc(v), Bin2Asc(w), Bin2Asc(x)] + rest)
            == Run(Push(Push(Push(Push(d, u), v), w), x), rest)
  {
    hide Push, Bin2Asc, Run;
    PushKeeps(d, u);
    PushKeeps(Push(d, u), v);
    PushKeeps(Push(Push(d, u), v), w);
    RunThree(d, u, v, w, [Bin2Asc(x)] + rest);
    RunData(Push(Push(Push(d, u), v), w), x, rest);
    assert [Bin2Asc(u), Bin2Asc(v), Bin2Asc(w), Bin2Asc(x)] + rest
        == [Bin2Asc(u), Bin2Asc(v), Bin2Asc(w)] + ([Bin2Asc(x)] + rest);
  }

  lemma RunEnds(d: Dec, u: sextet, v: sextet, w: sextet)
    requires Clean(d) && d.pad == 0 && !d.err
    ensures Run(d, [Bin2Asc(u), Bin2Asc(v), Bin2Asc(w)] + [PAD_CHAR]) == Push(Push(Push(d, u), v), w).(pad := 1)
    ensures Run(d, [Bin2Asc(u), Bin2Asc(v)] + [PAD_CHAR, PAD_CHAR]) == Push(Push(d, u), v).(pad := 2)
  {
    hide Push, Bin2Asc, Run;
    PushKeeps(d, u);
    PushKeeps(Push(d, u), v);
    PushKeeps(Push(Push(d, u), v), w);
    RunThree(d, u, v, w, [PAD_CHAR]);
    RunThree(d, u, v, w, [PAD_CHAR, PAD_CHAR]);
    RunPads(Push(Push(Push(d, u), v), w));
    RunPads(Push(Push(d, u), v));
  }

  /** The last group of two bytes or one, with its pad characters. */
  lemma RunTwo(d: Dec, m: seq<byte>)
    requires Clean(d) && d.num == 0 && d.pad == 0 && !d.err && |m| == 2
    ensures var r := Run(d, Encode(m)); !r.err && r.out == d.out + m && r.num + r.pad == 4
  {
    hide *;
    EncodeShort(m);
    ShortAscii(m[0], m[1], Sextets(Group(m[0], m[1], 0)));
    PushGroup(d, m[0], m[1], 0);
    RunEnds(d, First(m[0]), Second(m[0], m[1]), Third(m[1], 0));
    PushErr(d, First(m[0]), Second(m[0], m[1]), Third(m[1], 0));
    assert m == [m[0], m[1]];
  }

  lemma RunOne(d: Dec, m: seq<byte>)
    requires Clean(d) && d.num == 0 && d.pad == 0 && !d.err && |m| == 1
    ensures var r := Run(d, Encode(m)); !r.err && r.out == d.out + m && r.num + r.pad == 4
  {
    hide *;
    EncodeShort(m);
    ShortAscii(m[0], 0, Sextets(Group(m[0], 0, 0)));
    PushGroup(d, m[0], 0, 0);
    RunEnds(d, First(m[0]), Second(m[0], 0), 0);
    PushErr(d, First(m[0]), Second(m[0], 0), 0);
    assert m == [m[0]];
  }

  lemma PushErr(d: Dec, u: sextet, v: sextet, w: sextet)
    requires Clean(d)
    ensures Push(Push(d, u), v).err == d.err && Push(Push(Push(d, u), v), w).err == d.err
  {
  }

  /** Decoding an encoding gives the bytes back, with the right number of pad characters. */
  lemma {:induction false} RunEncode(d: Dec, m: seq<byte>)
    requires Clean(d) && d.num == 0 && d.pad == 0 && !d.err
    ensures var r := Run(d, Encode(m)); !r.err && r.out == d.out + m && (r.num + r.pad) % 4 == 0
    decreases |m|
  {
    hide Run, Sextets, Group, Ascii;
    if m == [] {
      RunNothing(d);
    } else if |m| == 1 {
      RunOne(d, m);
    } else if |m| == 2 {
      RunTwo(d, m);
    } else {
      RunGroup(d, m[0], m[1], m[2], Encode(m[3..]));
      RunEncode(d.(out := d.out + [m[0], m[1], m[2]]), m[3..]);
      assert d.out + [m[0], m[1], m[2]] + m[3..] == d.out + m;
    }
  }

  lemma RunNothing(d: Dec)
    requires Clean(d)
    ensures Run(d, []) == d && d.out + [] == d.out
  {
  }

  // ---------- what is accepted ----------

  predicate AllPads(t: seq<byte>) {
    forall i :: 0 <= i < |t| ==> t[i] == PAD_CHAR
  }

  /** Characters of the alphabet, then at most two pad characters. */
  predicate Shape(t: seq<byte>) {
    (AllPads(t) && |t| <= 2) || (t != [] && Asc2Bin(t[0]) < 64 && Shape(t[1..]))
  }

  lemma OnlyPadIsPad(ch: byte)
    ensures Asc2Bin(ch) == BASE64_PAD <==> ch == PAD_CHAR
  {
  }

  lemma {:induction false} RunAfterPad(d: Dec, t: seq<byte>)
    requires Clean(d) && !d.err && d.pad > 0 && Strip(t) == t
    ensures !Run(d, t).err <==> AllPads(t) && d.pad + |t| <= 2
    ensures !Run(d, t).err ==> Run(d, t).num == d.num && Run(d, t).pad == d.pad + |t|
    decreases |t|
  {
    if t != [] {
      StripKeeps(t);
      OnlyPadIsPad(t[0]);
      if t[0] == PAD_CHAR && d.pad < 2 {
        RunAfterPad(d.(pad := d.pad + 1), t[1..]);
        assert t == [t[0]] + t[1..];
      } else {
        RunStopped(d.(err := true), t[1..]);
      }
    }
  }

  lemma {:induction false} StripShorter(t: seq<byte>)
    ensures |Strip(t)| <= |t|
  {
    if t != [] {
      StripShorter(t[1..]);
    }
  }

  lemma StripKeeps(t: seq<byte>)
    requires t != [] && Strip(t) == t
    ensures Asc2Bin(t[0]) != BASE64_IGN && Strip(t[1..]) == t[1..]
  {
    StripShorter(t[1..]);
    if Asc2Bin(t[0]) != BASE64_IGN {
      assert Strip(t)[1..] == Strip(t[1..]);
    }
  }

  lemma RunFirst(d: Dec, t: seq<byte>)
    requires Clean(d) && !d.err && d.pad == 0 && t != [] && Strip(t) == t
    ensures Strip(t[1..]) == t[1..] && t == [t[0]] + t[1..]
    ensures var c := Asc2Bin(t[0]);
            if c < 64 then Run(d, t) == Run(Push(d, c), t[1..])
            else if t[0] == PAD_CHAR then Run(d, t) == Run(d.(pad := 1), t[1..])
            else Run(d, t) == d.(err := true)
  {
    hide Push;
    StripKeeps(t);
    OnlyPadIsPad(t[0]);
    if Asc2Bin(t[0]) >= 64 && t[0] != PAD_CHAR {
      RunStopped(d.(err := true), t[1..]);
    }
  }

  lemma NextMod(n: nat, k: nat)
    ensures ((n + 1) % 4 + k) % 4 == (n + 1 + k) % 4
  {
    var q, x := (n + 1) / 4, (n + 1) % 4 + k;
    assert n + 1 + k == 4 * (q + x / 4) + x % 4;
  }

  lemma {:induction false} RunShape(d: Dec, t: seq<byte>)
    requires Clean(d) && !d.err && d.pad == 0 && Strip(t) == t
    ensures !Run(d, t).err <==> Shape(t)
    ensures !Run(d, t).err ==> (Run(d, t).num + Run(d, t).pad) % 4 == (d.num + |t|) % 4
    decreases |t|
  {
    hide Push, Run, Strip, Clean, Shape, AllPads;
    ShapeFirst(t);
    if t == [] {
      RunNothing(d);
    } else {
      RunFirst(d, t);
      var c := Asc2Bin(t[0]);
      if c < 64 {
        PushKeeps(d, c);
        NextMod(d.num, |t| - 1);
        RunShape(Push(d, c), t[1..]);
      } else if t[0] == PAD_CHAR {
        PadClean(d);
        RunAfterPad(d.(pad := 1), t[1..]);
      }
    }
  }

  lemma PadClean(d: Dec)
    requires Clean(d)
    ensures Clean(d.(pad := 1))
  {
  }

  lemma ShapeFirst(t: seq<byte>)
    ensures t == [] ==> Shape(t)
    ensures t != [] && Asc2Bin(t[0]) < 64 ==> (Shape(t) <==> Shape(t[1..]))
    ensures t != [] && Asc2Bin(t[0]) >= 64 ==> (Shape(t) <==> t[0] == PAD_CHAR && AllPads(t[1..]) && |t| <= 2)
  {
    if t != [] {
      OnlyPadIsPad(t[0]);
      assert t == [t[0]] + t[1..];
    }
  }

  /** What base64_decode_block answers: 0 exactly for texts whose characters, white space aside, are of
      the alphabet, then at most two pad characters, and a multiple of four in number. */
  lemma Accepted(s: seq<byte>)
    ensures var r := Run(START, s);
            !r.err && (r.num + r.pad) % 4 == 0 <==> Shape(Strip(s)) && |Strip(s)| % 4 == 0
  {
    hide *;
    StartIs();
    RunStrip(START, s);
    StripTwice(s);
    RunShape(START, Strip(s));
  }

  lemma StartIs()
    ensures Clean(START) && START.num == 0 && START.pad == 0 && START.out == [] && !START.err
  {
  }

  lemma {:induction false} StripTwice(s: seq<byte>)
    ensures Strip(Strip(s)) == Strip(s)
  {
    if s != [] {
      StripTwice(s[1..]);
      if Asc2Bin(s[0]) != BASE64_IGN {
        assert Strip(s)[1..] == Strip(s[1..]);
      } else {
        assert Strip(s) == Strip(s[1..]);
      }
    }
  }

  // ---------- how much is written ----------

  /** The bytes that c sextets complete. */
  function Complete(c: nat): nat {
    c / 4 * 3 + if c % 4 == 0 then 0 else c % 4 - 1
  }

  function DecodeLen(srclen: nat): nat {
    (srclen + 3) / 4 * 3 + 1
  }

  lemma CompleteStep(c: nat)
    ensures Complete(c + 1) == Complete(c) + if c % 4 == 0 then 0 else 1
    ensures Complete(c + 4) == Complete(c) + 3
  {
  }

  lemma StepGrows(d: Dec, ch: byte)
    requires Clean(d)
    ensures var r := Step(d, ch);
            || (r.num == d.num && r.out == d.out)
            || (r.num == d.num + 1 && |r.out| == |d.out| + if d.num == 0 then 0 else 1)
            || (d.num == 3 && r.num == 0 && |r.out| == |d.out| + 1)
  {
  }

  lemma {:induction false} OutGrows(d: Dec, s: seq<byte>)
    requires Clean(d)
    ensures |d.out| <= |Run(d, s).out| <= |d.out| + Complete(d.num + |s|) - Complete(d.num)
    decreases |s|
  {
    if s != [] {
      hide Step, Complete;
      var r := Step(d, s[0]);
      StepGrows(d, s[0]);
      OutGrows(r, s[1..]);
      CompleteAfter(d.num, |s| - 1, r.num, |r.out| - |d.out|);
    }
  }

  lemma CompleteAfter(num: nat, left: nat, num': nat, grown: int)
    requires num < 4
    requires (num' == num && grown == 0) || (num' == num + 1 && grown == if num == 0 then 0 else 1)
             || (num == 3 && num' == 0 && grown == 1)
    ensures 0 <= grown && grown + Complete(num' + left) - Complete(num') <= Complete(num + left + 1) - Complete(num)
  {
    CompleteStep(num + left);
    CompleteStep(num);
    if num == 3 {
      CompleteStep(left);
      CompleteStep(0);
    }
  }

  /** The buffer of base64_decode_length is enough for the bytes and the NUL, in whatever state the
      context is. */
  lemma DecodeRoom(d: Dec, s: seq<byte>)
    requires Clean(d)
    ensures |Run(d, s).out| - |d.out| < DecodeLen(|s|)
  {
    OutGrows(d, s);
  }

  // ---------- the decoder ----------

  /** The state that a context carries from one call to the next. */
  function DecOf(x: Context): Dec
    requires x.buf.Length == 3
    reads x, x.buf
  {
    Dec(x.num, x.pad, if x.num == 0 then 0 else x.buf[0], [], false)
  }

  /** What the loop of base64_decode_update keeps: the bytes up to the moving pointer are those of the
      run, and the byte at it holds the bits that are already known. */
  ghost predicate Decoding(d: Dec, dst: seq<byte>, k: nat) {
    k < |dst| && d.out == dst[..k] && (d.num != 0 ==> d.cur == dst[k])
  }

  /** One character of the loop, branch by branch. */
  lemma NextChar(d: Dec, src: seq<byte>, j: nat)
    requires Clean(d) && !d.err && j < |src|
    ensures var c := Asc2Bin(src[j]);
            if c == BASE64_IGN then Run(d, src[j..]) == Run(d, src[j + 1..])
            else if c == BASE64_PAD && d.pad < 2 then
              Clean(d.(pad := d.pad + 1)) && Run(d, src[j..]) == Run(d.(pad := d.pad + 1), src[j + 1..])
            else if c == BASE64_ERR || d.pad > 0 then Run(d, src[j..]) == d.(err := true)
            else c < 64 && Run(d, src[j..]) == Run(Push(d, c), src[j + 1..])
  {
    hide Push;
    assert src[j..][1..] == src[j + 1..];
    RunStopped(d.(err := true), src[j + 1..]);
  }

  /** The output so far fits, since the run's output only grows. */
  lemma RoomAhead(d0: Dec, d: Dec, src: seq<byte>, rest: seq<byte>)
    requires Clean(d0) && d0.out == [] && Clean(d) && Run(d0, src) == Run(d, rest)
    ensures |d.out| < DecodeLen(|src|) && |Run(d0, src).out| < DecodeLen(|src|)
  {
    DecodeRoom(d0, src);
    OutGrows(d, rest);
  }

  lemma Continues(d0: Dec, src: seq<byte>)
    requires Clean(d0)
    ensures src[0..] == src && Run(d0, src) == Run(d0, src[0..]) && Run(d0, []) == d0
  {
  }

  /** The switch of base64_decode_update. */
  method PutSextet(dst: array<byte>, k: nat, i: nat, c: sextet, ghost d: Dec) returns (next: nat)
    requires Clean(d) && Decoding(d, dst[..], k) && d.num == i && |Push(d, c).out| < dst.Length
    modifies dst
    ensures Clean(Push(d, c)) && Decoding(Push(d, c), dst[..], next) && next >= k
    ensures dst[next + 1..] == old(dst[next + 1..])
  {
    match i {
      case 0 =>
        dst[k] := c * 4;
        return k;
      case 1 =>
        dst[k] := dst[k] + c / 16;
        dst[k + 1] := c % 16 * 16;
      case 2 =>
        dst[k] := dst[k] + c / 4;
        dst[k + 1] := c % 4 * 64;
      case _ =>
        dst[k] := dst[k] + c;
    }
    return k + 1;
  }

  lemma SuffixShrinks(a: seq<byte>, b: seq<byte>, c: seq<byte>, k: nat, next: nat)
    requires |a| == |b| == |c| && k <= next < |a| && b[k + 1..] == a[k + 1..] && c[next + 1..] == b[next + 1..]
    ensures c[next + 1..] == a[next + 1..]
  {
    assert b[k + 1..][next - k..] == b[next + 1..] && a[k + 1..][next - k..] == a[next + 1..];
  }

  lemma DecodingIs(d: Dec, dst: seq<byte>, k: nat)
    requires Clean(d) && Decoding(d, dst, k)
    ensures k < |dst| && d.out == dst[..k] && (d.num != 0 ==> d.cur == dst[k]) && (d.num == 0 ==> d.cur == 0)
    ensures forall pad, err :: Decoding(d.(pad := pad, err := err), dst, k)
  {
  }

  /** The loop of base64_decode_update. */
  method DecodeLoop(dst: array<byte>, src: seq<byte>, num: nat, pad0: nat, ghost d0: Dec)
    returns (i: nat, pad: nat, err: bool, k: nat)
    requires Clean(d0) && d0.out == [] && !d0.err && d0.num == num && d0.pad == pad0
    requires Decoding(d0, dst[..], 0) && DecodeLen(|src|) <= dst.Length
    modifies dst
    ensures var r := Run(d0, src);
            && i == r.num && pad == r.pad && err == r.err && k < DecodeLen(|src|) && Clean(r) && Decoding(r, dst[..], k)
    ensures k < dst.Length && dst[k + 1..] == old(dst[k + 1..])
  {
    hide *;
    i, pad, err, k := num, pad0, false, 0;
    var j := 0;
    ghost var d := d0;
    ghost var start := dst[..];
    Continues(d0, src);
    DecodingIs(d0, dst[..], 0);
    while j < |src|
      invariant 0 <= j <= |src| && Clean(d) && Decoding(d, dst[..], k) && k < dst.Length
      invariant d.num == i && d.pad == pad && !d.err && !err
      invariant Run(d0, src) == Run(d, src[j..])
      invariant dst[..][k + 1..] == start[k + 1..]
    {
      NextChar(d, src, j);
      DecodingIs(d, dst[..], k);
      var c := Asc2Bin(src[j]);
      j := j + 1;
      if c == BASE64_IGN {
        continue;
      }
      if c == BASE64_PAD && pad < 2 {
        pad := pad + 1;
        d := d.(pad := pad);
        continue;
      }
      if c == BASE64_ERR || pad > 0 {
        err := true;
        d := d.(err := true);
        break;
      }
      RoomAhead(d0, Push(d, c), src, src[j..]);
      PushKeeps(d, c);
      ghost var before := dst[..];
      var next := PutSextet(dst, k, i, c, d);
      SuffixShrinks(start, before, dst[..], k, next);
      k := next;
      d := Push(d, c);
      i := (i + 1) % 4;
    }
    if !err {
      assert src[j..] == [];
      Continues(d, src);
    }
    DecodingIs(d, dst[..], k);
    RoomAhead(d0, d0, src, src);
  }

  /** base64_decode_update, and with no context base64_decode_block. No byte at or after
      base64_decode_length(srclen) is touched. */
  method DecodeUpdate(x: Context?, dst: array<byte>, src: seq<byte>) returns (rc: int, dstlen: nat)
    requires x != null ==> x.buf.Length == 3 && Clean(DecOf(x)) && !x.finalized && x.buf != dst
    requires DecodeLen(|src|) <= dst.Length
    modifies if x == null then {} else {x}, if x == null then {} else {x.buf}, dst
    ensures var r := Run(if x == null then START else old(DecOf(x)), src);
            && dstlen == |r.out| < dst.Length && dst[..dstlen] == r.out && dst[dstlen] == 0
            && dst[dstlen + 1..] == old(dst[dstlen + 1..])
            && (x == null ==> (rc == 0 <==> !r.err && (r.num + r.pad) % 4 == 0))
            && (x != null ==> (rc == 0 <==> !r.err) && DecOf(x) == r.(out := [], err := false))
    ensures dstlen < DecodeLen(|src|) && rc in {0, -1}
    ensures x != null ==> !x.finalized && x.fed == old(x.fed) && x.sent == old(x.sent)
  {
    hide Run, Clean, Asc2Bin, DecodeLen, START;
    StartIs();
    DecodeLenPositive(|src|);
    ghost var d0 := if x == null then START else DecOf(x);
    var i, pad, err, k := 0, 0, false, 0;
    if x != null {
      i, pad := x.num, x.pad;
      dst[0] := x.buf[0];
    }
    i, pad, err, k := DecodeLoop(dst, src, i, pad, d0);
    DecodingIs(Run(d0, src), dst[..], k);
    if x != null {
      x.num, x.pad := i, pad;
      x.buf[0] := dst[k];
    } else if !err {
      err := (i + pad) % 4 != 0;
    }
    dst[k] := 0;
    return if err then -1 else 0, k;
  }

  lemma DecodeLenPositive(srclen: nat)
    ensures DecodeLen(srclen) > 0
  {
  }

  /** base64_decode_final. */
  method DecodeFinal(x: Context) returns (rc: int)
    requires !x.finalized
    modifies x`finalized
    ensures x.finalized && rc in {0, -1} && (rc == 0 <==> (x.num + x.pad) % 4 == 0)
  {
    rc := if (x.num + x.pad) % 4 != 0 then -1 else 0;
    x.finalized := true;
  }

  // ---------- decoding in pieces ----------

  /** A call of base64_decode_update for each chunk: `out` is what the calls wrote, one after another,
      and `err` says that one of them failed. Each call starts afresh but for the context. */
  function Session(d: Dec, chunks: seq<seq<byte>>): Dec
    requires Clean(d)
    decreases |chunks|
  {
    if chunks == [] then d
    else
      var r := Run(d.(out := [], err := false), chunks[0]);
      Session(r.(out := d.out + r.out, err := d.err || r.err), chunks[1..])
  }

  /** What was written before does not matter to what comes. */
  lemma {:induction false} RunOut(d: Dec, before: seq<byte>, s: seq<byte>)
    requires Clean(d)
    ensures var r := Run(d, s); Run(d.(out := before + d.out), s) == r.(out := before + r.out)
    decreases |s|
  {
    if s != [] {
      StepOut(d, before, s[0]);
      hide Step;
      RunOut(Step(d, s[0]), before, s[1..]);
    }
  }

  lemma StepOut(d: Dec, before: seq<byte>, ch: byte)
    requires Clean(d)
    ensures var r := Step(d, ch); Step(d.(out := before + d.out), ch) == r.(out := before + r.out)
  {
    var c := Asc2Bin(ch);
    if !d.err && c < 64 && d.pad == 0 {
      assert forall b: byte :: before + (d.out + [b]) == before + d.out + [b];
    }
  }

  lemma {:induction false} SessionIsRun(d: Dec, chunks: seq<seq<byte>>)
    requires Clean(d) && !d.err && !Run(d, Flatten(chunks)).err
    ensures Session(d, chunks) == Run(d, Flatten(chunks))
    decreases |chunks|
  {
    hide Run, Step;
    if chunks == [] {
      RunNothing(d);
    } else {
      var rest := Flatten(chunks[1..]);
      RunConcat(d, chunks[0], rest);
      var r := Run(d, chunks[0]);
      if r.err {
        RunStopped(r, rest);
      }
      RunOut(d.(out := []), d.out, chunks[0]);
      assert d.out + [] == d.out;
      SessionIsRun(r, chunks[1..]);
    }
  }

  /** A text that is an encoding but for white space, cut in any way, decodes to the bytes that were
      encoded: no call fails, and neither does base64_decode_final. */
  lemma DecodesInPieces(m: seq<byte>, chunks: seq<seq<byte>>)
    requires Strip(Flatten(chunks)) == Encode(m)
    ensures var r := Session(START, chunks); !r.err && r.out == m && (r.num + r.pad) % 4 == 0
  {
    hide *;
    StartIs();
    RunStrip(START, Flatten(chunks));
    RunEncode(START, m);
    SessionIsRun(START, chunks);
    NoneBefore(m);
  }

  lemma NoneBefore(m: seq<byte>)
    ensures [] + m == m
  {
  }

  /** The state of the context in d, with these bytes written. */
  function Having(d: Dec, out: seq<byte>): (r: Dec)
    requires Clean(d)
    ensures Clean(r) && r.out == out && r.num == d.num && r.pad == d.pad && r.err == d.err
  {
    d.(out := out)
  }

  lemma HavingAgain(r: Dec, out: seq<byte>)
    requires Clean(r) && !r.err
    ensures Clean(r.(out := [], err := false)) && Having(r.(out := [], err := false), out) == Having(r, out)
  {
  }

  /** One more call: what is left to run over is what is left to feed. */
  lemma OnePiece(d: Dec, before: seq<byte>, chunks: seq<seq<byte>>, i: nat)
    requires Clean(d) && !d.err && d.out == [] && i < |chunks|
    ensures var r := Run(d, chunks[i]);
            var all := Run(Having(d, before), Flatten(chunks[i..]));
            if r.err then all.err
            else all == Run(Having(r, before + r.out), Flatten(chunks[i + 1..]))
  {
    hide Run, Step;
    var rest := Flatten(chunks[i + 1..]);
    assert chunks[i..][0] == chunks[i] && chunks[i..][1..] == chunks[i + 1..];
    RunConcat(d.(out := before), chunks[i], rest);
    RunOut(d, before, chunks[i]);
    NoneAfter(before);
    var r := Run(d, chunks[i]);
    if r.err {
      RunStopped(r.(out := before + r.out), rest);
    }
  }

  lemma NoneAfter(m: seq<byte>)
    ensures m + [] == m
  {
  }

  /** base64_init, base64_decode_update for each piece with a fresh target, base64_decode_final; the first
      failure ends it. It succeeds exactly for the texts that base64_decode_block accepts when they are
      given whole, with the bytes of the whole; so an encoding with white space anywhere, cut in any way,
      gives back the bytes encoded. */
  method DecodePieces(chunks: seq<seq<byte>>) returns (rc: int, out: seq<byte>)
    ensures rc == 0 <==> Shape(Strip(Flatten(chunks))) && |Strip(Flatten(chunks))| % 4 == 0
    ensures rc == 0 ==> out == Run(START, Flatten(chunks)).out
    ensures forall m :: Strip(Flatten(chunks)) == Encode(m) ==> rc == 0 && out == m
  {
    hide *;
    ghost var text := Flatten(chunks);
    StartIs();
    Accepted(text);
    EncodingsRun(text);
    var x := new Context();
    DecOfIs(x);
    assert chunks[0..] == chunks && Having(START, []) == START by {
      StartHaving();
    }
    out := [];
    for i := 0 to |chunks|
      invariant x.buf.Length == 3 && fresh(x) && fresh(x.buf) && !x.finalized
      invariant Clean(DecOf(x)) && DecOf(x).out == [] && !DecOf(x).err
      invariant Run(START, text) == Run(Having(DecOf(x), out), Flatten(chunks[i..]))
    {
      DecodeLenPositive(|chunks[i]|);
      var dst := new byte[DecodeLen(|chunks[i]|)];
      OnePiece(DecOf(x), out, chunks, i);
      ghost var r := Run(DecOf(x), chunks[i]);
      var dstlen;
      rc, dstlen := DecodeUpdate(x, dst, chunks[i]);
      if rc != 0 {
        return -1, out;
      }
      HavingAgain(r, out + r.out);
      out := out + dst[..dstlen];
    }
    NothingLeft(Having(DecOf(x), out), chunks);
    DecOfIs(x);
    rc := DecodeFinal(x);
  }

  lemma EncodingsRun(text: seq<byte>)
    ensures forall m :: Strip(text) == Encode(m) ==>
              var r := Run(START, text); !r.err && (r.num + r.pad) % 4 == 0 && r.out == m
  {
    hide *;
    StartIs();
    forall m | Strip(text) == Encode(m)
      ensures var r := Run(START, text); !r.err && (r.num + r.pad) % 4 == 0 && r.out == m
    {
      RunStrip(START, text);
      RunEncode(START, m);
      NoneBefore(m);
    }
  }

  lemma StartHaving()
    ensures Having(START, []) == START
  {
  }

  lemma NothingLeft(d: Dec, chunks: seq<seq<byte>>)
    requires Clean(d)
    ensures Run(d, Flatten(chunks[|chunks|..])) == d
  {
  }

  lemma DecOfIs(x: Context)
    requires x.buf.Length == 3
    ensures DecOf(x).num == x.num && DecOf(x).pad == x.pad && DecOf(x).out == [] && !DecOf(x).err
    ensures x.num == 0 && x.pad == 0 ==> DecOf(x) == START
  {
  }
}
