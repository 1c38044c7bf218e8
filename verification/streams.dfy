/** The C file calls that the index file and MD5File make: fwrite at the end, fread, feof. */
module Streams {
  import opened Chars

  /** An open file: its bytes, the position in it, and whether a read ran past its end. */
  class Stream {
    var data: seq<byte>
    var pos: nat
    var eof: bool

    constructor (bytes: seq<byte>)
      ensures data == bytes && pos == 0 && !eof
    {
      data, pos, eof := bytes, 0, false;
    }

    method Write(b: seq<byte>)
      modifies this`data
      ensures data == old(data) + b
    {
      data := data + b;
    }

    /** fread: as many items as are complete; what is left of an incomplete one is consumed too. */
    method Read(size: nat, n: nat) returns (d: nat, b: seq<byte>)
      requires pos <= |data| && 0 < size
      modifies this`pos, this`eof
      ensures old(pos) <= pos <= |data| && b == data[old(pos)..pos]
      ensures d == n <==> size * n <= |data| - old(pos)
      ensures d <= n
      ensures d == n ==> |b| == size * n && eof == old(eof)
      ensures d < n ==> pos == |data| && eof && d == |b| / size
    {
      var want, left := size * n, |data| - pos;
      if want <= left {
        b := data[pos..pos + want];
        pos := pos + want;
        return n, b;
      }
      b := data[pos..];
      pos, eof := |data|, true;
      FewItems(left, size, n);
      return left / size, b;
    }
  }

  lemma FewItems(left: nat, size: nat, n: nat)
    requires 0 < size && left < size * n
    ensures left / size < n
  {
    if n <= left / size {
      MulMonotone(size, n, left / size);
    }
  }

  lemma MulMonotone(c: nat, a: nat, b: nat)
    requires a <= b
    ensures c * a <= c * b
  {
  }
}
