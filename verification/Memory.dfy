/** Copies within a block of memory. */
module Memory {
  import opened Bytes

  /** memcpy into the block. */
  function Write(zl: seq<Byte>, at: nat, b: seq<Byte>): (r: seq<Byte>)
    requires at + |b| <= |zl|
    ensures |r| == |zl|
  {
    zl[..at] + b + zl[at + |b|..]
  }

  /** memmove within the block; the two stretches may overlap. */
  function MemMove(zl: seq<Byte>, to: nat, from: nat, n: nat): (r: seq<Byte>)
    requires to + n <= |zl| && from + n <= |zl|
    ensures |r| == |zl|
  {
    Write(zl, to, zl[from..from + n])
  }
}
