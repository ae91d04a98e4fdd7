/** Bytes and the copying of byte ranges. */
module Bytes {

  newtype Byte = x: int | 0 <= x < 256

  /** memcpy between two buffers. */
  method CopyBytes(dst: array<Byte>, at: nat, src: array<Byte>, from: nat, n: nat)
    requires at + n <= dst.Length && from + n <= src.Length && dst != src
    modifies dst
    ensures dst[..] == old(dst[..at]) + src[from..from + n] + old(dst[at + n..])
  {
    for i := 0 to n
      invariant forall j :: at <= j < at + i ==> dst[j] == src[from + (j - at)]
      invariant forall j :: 0 <= j < at || at + i <= j < dst.Length ==> dst[j] == old(dst[j])
    {
      dst[at + i] := src[from + i];
    }
    assert dst[at..at + n] == src[from..from + n];
    assert dst[..] == dst[..at] + dst[at..at + n] + dst[at + n..];
  }
}
