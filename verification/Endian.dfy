/** Numbers as little endian bytes. */
module Endian {
  import opened Bytes

  function Pow256(n: nat): nat { if n == 0 then 1 else 256 * Pow256(n - 1) }

  function LE(v: nat, n: nat): (b: seq<Byte>)
    ensures |b| == n
  {
    if n == 0 then [] else [v % 256] + LE(v / 256, n - 1)
  }

  function FromLE(b: seq<Byte>): nat { if b == [] then 0 else b[0] + 256 * FromLE(b[1..]) }

  lemma {:induction false} LERoundTrip(v: nat, n: nat)
    requires v < Pow256(n)
    ensures FromLE(LE(v, n)) == v
  {
    if n > 0 {
      LERoundTrip(v / 256, n - 1);
      assert LE(v, n)[1..] == LE(v / 256, n - 1);
    }
  }

  lemma Pow256Values()
    ensures Pow256(1) == 256 && Pow256(2) == 65536 && Pow256(4) == 0x1_0000_0000 && Pow256(8) == 0x1_0000_0000_0000_0000
  {
    assert Pow256(4) == 0x1_0000_0000;
    assert Pow256(6) == 0x1_0000_0000_0000;
  }

  /** Two's complement in `n` bytes, and back. */
  function Wrap(v: int, n: nat): int { if v < 0 then v + Pow256(n) else v }

  function Unwrap(u: nat, n: nat): int { if u >= Pow256(n) / 2 then u - Pow256(n) else u }

  function Half(n: nat): int { Pow256(n) / 2 }

  lemma SignedRoundTrip(v: int, n: nat)
    requires n in {1, 2, 4, 8} && -Half(n) <= v < Half(n)
    ensures Wrap(v, n) >= 0 && Unwrap(FromLE(LE(Wrap(v, n), n)), n) == v
  {
    Pow256Values();
    hide Pow256, LE, FromLE;
    LERoundTrip(Wrap(v, n), n);
  }
}
