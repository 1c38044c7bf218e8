/** Numbers as bytes, low byte first. */
module LittleEndian {
  import opened Chars

  function Pow256(w: nat): nat {
    if w == 0 then 1 else 256 * Pow256(w - 1)
  }

  /** The low w bytes of a number. */
  function Le(n: nat, w: nat): (b: seq<byte>)
    ensures |b| == w
    decreases w
  {
    if w == 0 then [] else [n % 256] + Le(n / 256, w - 1)
  }

  function FromLe(b: seq<byte>): nat {
    if b == [] then 0 else b[0] + 256 * FromLe(b[1..])
  }

  lemma {:induction false} LeRoundTrip(n: nat, w: nat)
    requires n < Pow256(w)
    ensures FromLe(Le(n, w)) == n
    decreases w
  {
    if w > 0 {
      LeRoundTrip(n / 256, w - 1);
      assert Le(n, w)[1..] == Le(n / 256, w - 1);
    }
  }

  /** The byte order: the low byte comes first. */
  lemma FourBytes(n: nat, a: byte, b: byte, c: byte, d: byte)
    requires n == a + 0x100 * b + 0x1_0000 * c + 0x100_0000 * d
    ensures Le(n, 4) == [a, b, c, d]
  {
    LeStep(n, 4, a, b + 0x100 * c + 0x1_0000 * d);
    LeStep(b + 0x100 * c + 0x1_0000 * d, 3, b, c + 0x100 * d);
    LeStep(c + 0x100 * d, 2, c, d);
    LeStep(d, 1, d, 0);
  }

  lemma LeStep(n: nat, w: nat, low: byte, high: nat)
    requires n == low + 256 * high && w > 0
    ensures Le(n, w) == [low] + Le(high, w - 1)
  {
  }

  /** A number split into a low and a high part. */
  lemma {:induction false} LeConcat(low: nat, high: nat, a: nat, b: nat)
    requires low < Pow256(a)
    ensures Le(low + Pow256(a) * high, a + b) == Le(low, a) + Le(high, b)
    decreases a
  {
    if a > 0 {
      var n, p := low + Pow256(a) * high, Pow256(a - 1) * high;
      MulAssoc(256, Pow256(a - 1), high);
      assert n == low + 256 * p;
      LeConcat(low / 256, high, a - 1, b);
      assert n % 256 == low % 256 && n / 256 == low / 256 + p;
    }
  }

  lemma MulAssoc(x: nat, y: nat, z: nat)
    ensures x * y * z == x * (y * z)
  {
  }
}
