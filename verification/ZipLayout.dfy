/** Whole ziplists: header, entries one after the other, end byte; and what the moves and
    writes of ziplist.c do to them. */
module ZipLayout {
  import opened Bytes
  import opened Endian
  import opened Memory
  import opened ZipEntry

  const HEADER: nat := 10
  const UINT16_MAX: nat := 0xFFFF

  // ----- The header -----

  function Total(zl: seq<Byte>): nat requires |zl| >= HEADER { FromLE(zl[0..4]) }
  function Tail(zl: seq<Byte>): nat requires |zl| >= HEADER { FromLE(zl[4..8]) }
  function Count(zl: seq<Byte>): nat requires |zl| >= HEADER { FromLE(zl[8..10]) }

  /** A block by its header fields and what follows them. */
  function Block(total: nat, tail: nat, count: nat, rest: seq<Byte>): (zl: seq<Byte>)
    ensures |zl| == HEADER + |rest|
  {
    LE(total, 4) + LE(tail, 4) + LE(count, 2) + rest
  }

  predicate Fields(total: nat, tail: nat, count: nat)
  {
    total <= UINT32_MAX && tail <= UINT32_MAX && count <= UINT16_MAX
  }

  lemma BlockRead(total: nat, tail: nat, count: nat, rest: seq<Byte>)
    requires Fields(total, tail, count)
    ensures var zl := Block(total, tail, count, rest);
            Total(zl) == total && Tail(zl) == tail && Count(zl) == count && zl[HEADER..] == rest
  {
    hide Pow256, LE, FromLE;
    var zl := Block(total, tail, count, rest);
    Pow256Values();
    LERoundTrip(total, 4);
    LERoundTrip(tail, 4);
    LERoundTrip(count, 2);
    assert zl[0..4] == LE(total, 4) && zl[4..8] == LE(tail, 4) && zl[8..10] == LE(count, 2);
  }

  lemma BlockWrite(total: nat, tail: nat, count: nat, rest: seq<Byte>, n: nat)
    ensures var zl := Block(total, tail, count, rest);
            && Write(zl, 0, LE(n, 4)) == Block(n, tail, count, rest)
            && Write(zl, 4, LE(n, 4)) == Block(total, n, count, rest)
            && Write(zl, 8, LE(n, 2)) == Block(total, tail, n, rest)
  {
    hide LE;
  }

  lemma BlockSplit(total: nat, tail: nat, count: nat, a: seq<Byte>, b: seq<Byte>)
    ensures Block(total, tail, count, a + b) == Block(total, tail, count, a) + b
  {
    hide LE;
    assert LE(total, 4) + LE(tail, 4) + LE(count, 2) + (a + b) == LE(total, 4) + LE(tail, 4) + LE(count, 2) + a + b;
  }

  // ----- Entries in a row -----

  function Flat(es: seq<Entry>): seq<Byte> { if es == [] then [] else Raw(es[0]) + Flat(es[1..]) }

  lemma {:induction false} FlatAppend(a: seq<Entry>, b: seq<Entry>)
    ensures Flat(a + b) == Flat(a) + Flat(b)
  {
    hide Raw;
    if a == [] {
      assert a + b == b;
    } else {
      assert (a + b)[1..] == a[1..] + b;
      FlatAppend(a[1..], b);
    }
  }

  lemma FlatOne(e: Entry)
    ensures Flat([e]) == Raw(e)
  {
    hide Raw;
    assert Flat([e]) == Raw(e) + Flat([]);
  }

  /** Every back-link is the size of the entry before, `prev` for the first. */
  predicate Chained(prev: nat, es: seq<Entry>)
    decreases |es|
  {
    es == [] || (es[0].prev == prev && Chained(Size(es[0]), es[1..]))
  }

  /** The back-link an entry behind these has. */
  function LastSize(prev: nat, es: seq<Entry>): nat { if es == [] then prev else Size(es[|es| - 1]) }

  lemma {:induction false} ChainedAppend(prev: nat, a: seq<Entry>, b: seq<Entry>)
    ensures Chained(prev, a + b) <==> Chained(prev, a) && Chained(LastSize(prev, a), b)
    decreases |a|
  {
    hide Size;
    if a == [] {
      assert a + b == b;
    } else {
      assert (a + b)[1..] == a[1..] + b;
      ChainedAppend(Size(a[0]), a[1..], b);
    }
  }

  /** How far into the entries the last one begins. */
  function LastOffset(es: seq<Entry>): nat
    requires es != []
  {
    |Flat(es[..|es| - 1])|
  }

  lemma LastOffsetStep(es: seq<Entry>)
    requires |es| > 1
    ensures LastOffset(es) == Size(es[0]) + LastOffset(es[1..])
  {
    hide Raw, Size;
    assert es[..|es| - 1] == [es[0]] + es[1..][..|es| - 2];
    FlatAppend([es[0]], es[1..][..|es| - 2]);
    FlatOne(es[0]);
  }

  // ----- Reading -----

  /** From offset `p` on the block holds these entries and the end byte. */
  predicate Suffix(zl: seq<Byte>, p: nat, es: seq<Entry>) { p <= |zl| && zl[p..] == Flat(es) + [ZIP_END] }

  lemma SuffixHead(zl: seq<Byte>, p: nat, es: seq<Entry>)
    requires Suffix(zl, p, es)
    ensures p < |zl|
    ensures es == [] ==> p + 1 == |zl| && zl[p] == ZIP_END
    ensures es != [] ==> p + Size(es[0]) < |zl| && StoredAt(zl, p, es[0]) && Suffix(zl, p + Size(es[0]), es[1..])
  {
    hide Raw, Size;
    if es == [] {
      assert zl[p] == zl[p..][0];
    } else {
      var n := Size(es[0]);
      assert zl[p..] == Raw(es[0]) + (Flat(es[1..]) + [ZIP_END]);
      assert zl[p..p + n] == zl[p..][..n] && zl[p + n..] == zl[p..][n..];
    }
  }

  lemma SuffixIs(zl: seq<Byte>, q: seq<Byte>, es: seq<Entry>)
    requires zl == q + (Flat(es) + [ZIP_END])
    ensures Suffix(zl, |q|, es)
  {
    hide Flat;
    assert zl[|q|..] == Flat(es) + [ZIP_END];
  }

  /** The entries from `p` on can be read in only one way. */
  lemma {:induction false} SuffixUnique(zl: seq<Byte>, p: nat, es: seq<Entry>, fs: seq<Entry>)
    requires Suffix(zl, p, es) && Suffix(zl, p, fs)
    ensures es == fs
    decreases |es|
  {
    hide *;
    AtEnd(zl, p, es);
    AtEnd(zl, p, fs);
    if es != [] {
      SuffixHead(zl, p, es);
      SuffixHead(zl, p, fs);
      SameEntry(es[0], fs[0], zl, p);
      SuffixUnique(zl, p + Size(es[0]), es[1..], fs[1..]);
    }
  }

  lemma AtEnd(zl: seq<Byte>, p: nat, es: seq<Entry>)
    requires Suffix(zl, p, es)
    ensures p < |zl| && (zl[p] == ZIP_END <==> es == [])
    ensures es == [] ==> p + 1 == |zl|
  {
    hide *;
    SuffixHead(zl, p, es);
    if es != [] { EntryRead(zl, p, es[0]); }
  }

  lemma SameEntry(e: Entry, f: Entry, zl: seq<Byte>, p: nat)
    requires StoredAt(zl, p, e) && StoredAt(zl, p, f)
    ensures e == f
  {
    EntryRead(zl, p, e);
    EntryRead(zl, p, f);
    hide Size, ReadEntry, LoadInteger;
  }
}
