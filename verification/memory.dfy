/** Copying bytes into a buffer: memcpy, and MD5_memcpy of filesearch/md5c.c. */
module Memory {
  import opened Chars

  /** The bytes of `src` go to dst[at..], and nothing else changes. */
  method MemCpy(dst: array<byte>, at: nat, src: seq<byte>)
    requires at + |src| <= dst.Length
    modifies dst
    ensures dst[..] == old(dst[..at]) + src + old(dst[at + |src|..])
    ensures dst[..at + |src|] == old(dst[..at]) + src
  {
    var i := 0;
    while i < |src|
      invariant 0 <= i <= |src|
      invariant dst[..at] == old(dst[..at]) && dst[at..at + i] == src[..i] && dst[at + i..] == old(dst[at + i..])
    {
      dst[at + i] := src[i];
      i := i + 1;
    }
    assert dst[..] == dst[..at] + dst[at..at + i] + dst[at + i..];
    assert dst[..at + i] == dst[..at] + dst[at..at + i];
  }
}
