/** Bytes, blocks of them, and the copying that memcpy, strcpy and read do. */
module Bytes {
  type byte = x: int | 0 <= x < 256
  type Block = seq<byte>

  method Copy(dst: array<byte>, at: nat, src: Block)
    requires at + |src| <= dst.Length
    modifies dst
    ensures dst[..] == old(dst[..at]) + src + old(dst[at + |src|..])
  {
    ghost var was := dst[..];
    for k := 0 to |src|
      invariant forall j | 0 <= j < dst.Length :: dst[j] == if at <= j < at + k then src[j - at] else was[j]
    {
      dst[at + k] := src[k];
    }
    ghost var goal := was[..at] + src + was[at + |src|..];
    forall j | 0 <= j < dst.Length ensures dst[..][j] == goal[j] {
    }
  }
}
