/** Deletion from a ziplist. */
module ZipDelete {
  import opened Bytes
  import opened Endian
  import opened Memory
  import opened ZipCascade
  import opened ZipEntry
  import opened ZipInsert
  import opened ZipLayout
  import opened ZipTexts
  import opened Ziplist

  // ----- Bytes -----

  /** The new link is written over the end of what is deleted, or further into the old link. */
  lemma LinkBytes(q: seq<Byte>, d: seq<Byte>, l: seq<Byte>, t: seq<Byte>, link: seq<Byte>)
    requires |l| in {1, 5} && |link| in {1, 5} && |link| - |l| <= |d|
    ensures var z, at := q + d + (l + (t + [ZIP_END])), |q| + |d| - (|link| - |l|);
            && |q| <= at && at + |link| <= |z|
            && Write(z, at, link) == q + Write(z, at, link)[|q|..at] + (link + (t + [ZIP_END]))
  {
    hide *;
    var u := t + [ZIP_END];
    var z, at := q + d + (l + u), |q| + |d| - (|link| - |l|);
    FourParts(q, d, l, u);
    WrittenAt(z, at, link);
    Regrouped(Write(z, at, link), q, at, link + u);
  }

  lemma FourParts(q: seq<Byte>, d: seq<Byte>, l: seq<Byte>, u: seq<Byte>)
    ensures (q + d + (l + u))[|q| + |d| + |l|..] == u && (q + d + (l + u))[..|q|] == q
  {}

  /** What follows the gap moves down over it, and the block ends behind it. */
  lemma CloseBytes(q: seq<Byte>, d: seq<Byte>, s: seq<Byte>)
    ensures var z := q + d + (s + [ZIP_END]);
            MemMove(z, |q|, |q| + |d|, |s|)[..|q| + |s|] + [ZIP_END] == q + (s + [ZIP_END])
  {
    var z := q + d + (s + [ZIP_END]);
    assert z[|q| + |d|..|q| + |d| + |s|] == s;
    assert MemMove(z, |q|, |q| + |d|, |s|)[..|q| + |s|] == q + s;
  }

  // ----- Entries -----

  /** The block by its entries before, in and behind the deleted stretch. */
  lemma ThreeParts(es: seq<Entry>, i: nat, k: nat)
    requires i <= k <= |es|
    ensures OffsetOf(es, k) == OffsetOf(es, i) + |Flat(es[i..k])|
    ensures Flat(es) == Flat(es[..i]) + Flat(es[i..k]) + Flat(es[k..])
    ensures k - i <= |Flat(es[i..k])| && (k == i ==> Flat(es[i..k]) == [])
  {
    hide Flat;
    assert es == es[..k] + es[k..] && es[..k] == es[..i] + es[i..k];
    FlatAppend(es[..k], es[k..]);
    FlatAppend(es[..i], es[i..k]);
    FlatLength(es[i..k]);
    if k == i { FlatEmpty(); }
  }

  lemma {:induction false} FlatLength(es: seq<Entry>)
    ensures |es| <= |Flat(es)|
  {
    hide Raw;
    if es != [] { FlatLength(es[1..]); }
  }

  /** Writing the link of the first entry behind the stretch. */
  lemma Relink(zl: seq<Byte>, es: seq<Entry>, i: nat, k: nat, prev: nat)
    requires Rep(zl, es) && i < k < |es| && prev <= UINT32_MAX && PrevSize(prev) - |Link(es[k])| <= |Flat(es[i..k])|
    ensures |StorePrev(prev)| == PrevSize(prev)
    ensures var at := OffsetOf(es, k) - (PrevSize(prev) - |Link(es[k])|);
            && OffsetOf(es, i) <= at && at + PrevSize(prev) <= |zl|
            && var w := Write(zl, at, StorePrev(prev));
               Mid(w, TailOf(es), Count(zl), Flat(es[..i]) + w[OffsetOf(es, i)..at],
                   [Fitted(es[k], prev, false)] + es[k + 1..])
  {
    hide *;
    RepFacts(zl, es);
    TailAt(zl, es);
    CountBound(Count(zl), |es|);
    ThreeParts(es, i, k);
    OffsetIs(es, i);
    LinkChange(es[k], prev);
    FittedIs(es[k], prev, false);
    FittedLinkIs(prev, false);
    FlatFrom(es[k..], 0);
    assert es[k..][0] == es[k] && es[k..][..0] == [] && es[k..][1..] == es[k + 1..];
    FlatEmpty();
    var f, link, l, t := Fitted(es[k], prev, false), StorePrev(prev), Link(es[k]),
      Body(es[k].content) + Flat(es[k + 1..]);
    FlatFitted(es[k], f, es[k + 1..], link);
    assert [] + (l + t) == l + t && Flat(es[k..]) == l + t;
    RelinkBytes(zl, TailOf(es), Count(zl), Flat(es[..i]), Flat(es[i..k]), l, t, link);
    var at := OffsetOf(es, k) - (PrevSize(prev) - |l|);
    var w := Write(zl, at, link);
    Assoc(link, t, [ZIP_END]);
    MidIs(w, TailOf(es), Count(zl), Flat(es[..i]) + w[OffsetOf(es, i)..at], [f] + es[k + 1..]);
  }

  lemma RelinkBytes(zl: seq<Byte>, tail: nat, count: nat, a: seq<Byte>, d: seq<Byte>, l: seq<Byte>, t: seq<Byte>,
                    link: seq<Byte>)
    requires zl == Block(|zl|, tail, count, a + d + (l + t) + [ZIP_END])
    requires |l| in {1, 5} && |link| in {1, 5} && |link| - |l| <= |d|
    ensures var at := HEADER + |a| + |d| - (|link| - |l|);
            && HEADER + |a| <= at && at + |link| <= |zl|
            && var w := Write(zl, at, link);
               w == Block(|zl|, tail, count, a + w[HEADER + |a|..at] + (link + (t + [ZIP_END])))
  {
    hide Block, Write;
    var q := Block(|zl|, tail, count, a);
    Assoc(a + d, l + t, [ZIP_END]);
    Assoc(l, t, [ZIP_END]);
    Assoc(a, d, l + (t + [ZIP_END]));
    BlockSplit(|zl|, tail, count, a, d + (l + (t + [ZIP_END])));
    Assoc(q, d, l + (t + [ZIP_END]));
    LinkBytes(q, d, l, t, link);
    var at := HEADER + |a| + |d| - (|link| - |l|);
    var j := Write(zl, at, link)[HEADER + |a|..at];
    Assoc(a, j, link + (t + [ZIP_END]));
    BlockSplit(|zl|, tail, count, a, j + (link + (t + [ZIP_END])));
    Assoc(q, j, link + (t + [ZIP_END]));
  }

  /** Closing the gap `j`. */
  lemma Closed(zl: seq<Byte>, tail: nat, count: nat, a: seq<Byte>, j: seq<Byte>, es: seq<Entry>)
    requires Mid(zl, tail, count, a + j, es)
    ensures var p, n := HEADER + |a|, |zl| - |j|;
            && HEADER == 10 && n > HEADER && |zl| - (p + |j|) - 1 >= 0
            && var m := MemMove(zl, p, p + |j|, |zl| - (p + |j|) - 1);
               Mid(Write(m[..n - 1] + [ZIP_END], 0, LE(n, 4)), tail, count, a, es)
  {
    hide *;
    MidFacts(zl, tail, count, a + j, es);
    MidParts(zl, tail, count, a + j, es);
    HeaderIs();
    var n, p, s := |zl| - |j|, HEADER + |a|, Flat(es);
    var q := Block(|zl|, tail, count, a);
    BlockSplit(|zl|, tail, count, a + j, s + [ZIP_END]);
    BlockSplit(|zl|, tail, count, a, j);
    CloseBytes(q, j, s);
    BlockSplit(|zl|, tail, count, a, s + [ZIP_END]);
    BlockWrite(|zl|, tail, count, a + (s + [ZIP_END]), n);
    var m := MemMove(zl, p, p + |j|, |zl| - (p + |j|) - 1);
    MidIs(Write(m[..n - 1] + [ZIP_END], 0, LE(n, 4)), tail, count, a, es);
  }

  lemma MidParts(zl: seq<Byte>, tail: nat, count: nat, a: seq<Byte>, es: seq<Entry>)
    requires Mid(zl, tail, count, a, es)
    ensures |zl| <= UINT32_MAX && tail <= UINT32_MAX && count <= UINT16_MAX
    ensures zl == Block(|zl|, tail, count, a + (Flat(es) + [ZIP_END]))
  {
    hide Block, Flat;
  }

  /** Writing the count. */
  lemma EndsCount(zl: seq<Byte>, count: nat, a: seq<Byte>, es: seq<Entry>, c: nat)
    requires Ends(zl, count, a, es) && c <= UINT16_MAX
    ensures |zl| > HEADER == 10 && Ends(Write(zl, 8, LE(c, 2)), c, a, es)
  {
    hide *;
    HeaderIs();
    EndsParts(zl, count, a, es);
    BlockWrite(|zl|, HEADER + |a| + LastOffset(es), count, a + (Flat(es) + [ZIP_END]), c);
    EndsIs(Write(zl, 8, LE(c, 2)), HEADER + |a| + LastOffset(es), c, a, es);
  }

  lemma EndsRep(zl: seq<Byte>, count: nat, a: seq<Entry>, b: seq<Entry>)
    requires Ends(zl, count, Flat(a), b) && Chained(0, a + b) && CountOk(count, |a| + |b|)
    ensures Rep(zl, a + b) && Count(zl) == count
  {
    hide *;
    assert [] + Flat(a) == Flat(a);
    EndsJoin(zl, count, [], a, b);
    EndsParts(zl, count, [], a + b);
    TailIs(a + b);
    assert [] + (Flat(a + b) + [ZIP_END]) == Flat(a + b) + [ZIP_END];
    RepIs(zl, count, a + b);
  }

  /** Where the last entry is once the entries from `i` to `k` are gone. */
  lemma TailCloses(zl: seq<Byte>, es: seq<Entry>, i: nat, k: nat, f: Entry)
    requires Rep(zl, es) && i <= k < |es|
    ensures var fs := [f] + es[k + 1..];
            && fs[0] == f && fs[1..] == es[k + 1..] && fs != []
            && TailOf(es) - |Flat(es[i..k])| + (if k + 1 < |es| then Size(f) - Size(es[k]) else 0)
               == HEADER + |Flat(es[..i])| + LastOffset(fs)
    ensures TailOf(es) < |zl| && TailOf(es) >= |Flat(es[i..k])|
  {
    hide *;
    TailMoves(zl, es, k, f, 0);
    ThreeParts(es, i, k);
    OffsetIs(es, i);
    OffsetIs(es, k);
    TailAtLeast(zl, es, k);
  }

  lemma TailAtLeast(zl: seq<Byte>, es: seq<Entry>, k: nat)
    requires Rep(zl, es) && k < |es|
    ensures TailOf(es) >= OffsetOf(es, k)
  {
    hide *;
    TailAt(zl, es);
    RepFacts(zl, es);
    ThreeParts(es, k, |es| - 1);
  }

  /** The list without the entries from `i` to `k`. */
  function DeletedAt(es: seq<Entry>, i: nat, k: nat): (fs: seq<Entry>)
    requires i < k <= |es| && es[i].prev <= UINT32_MAX
    requires k < |es| ==> Room([Fitted(es[k], es[i].prev, false)] + es[k + 1..])
    ensures |fs| == |es| - (k - i)
  {
    es[..i] + (if k == |es| then [] else Fixed([Fitted(es[k], es[i].prev, false)] + es[k + 1..]))
  }

  lemma DeletedIs(es: seq<Entry>, i: nat, k: nat)
    requires i < k <= |es| && es[i].prev <= UINT32_MAX
    requires k < |es| ==> Room([Fitted(es[k], es[i].prev, false)] + es[k + 1..])
    ensures k == |es| ==> DeletedAt(es, i, k) == es[..i] + []
    ensures k < |es| ==> DeletedAt(es, i, k) == es[..i] + Fixed([Fitted(es[k], es[i].prev, false)] + es[k + 1..])
  {
    hide Room, Fixed, Fitted;
  }

  lemma DeletedTexts(es: seq<Entry>, i: nat, k: nat)
    requires i < k <= |es| && es[i].prev <= UINT32_MAX
    requires k < |es| ==> Room([Fitted(es[k], es[i].prev, false)] + es[k + 1..])
    ensures Texts(DeletedAt(es, i, k)) == Texts(es)[..i] + Texts(es)[k..]
  {
    hide *;
    DeletedIs(es, i, k);
    TextsCut(es, i);
    TextsCut(es, k);
    if k < |es| {
      var bs := [Fitted(es[k], es[i].prev, false)] + es[k + 1..];
      FixedContents(bs);
      FittedIs(es[k], es[i].prev, false);
      SameTexts(es[k..], Fixed(bs));
      TextsJoin(es[..i], Fixed(bs));
    } else {
      TextsJoin(es[..i], []);
      SameTexts(es[k..], []);
    }
  }

  lemma DeletedChain(es: seq<Entry>, i: nat, k: nat)
    requires Chained(0, es) && i < k <= |es| && es[i].prev <= UINT32_MAX
    requires k < |es| ==> Room([Fitted(es[k], es[i].prev, false)] + es[k + 1..])
    ensures Chained(0, DeletedAt(es, i, k))
  {
    hide *;
    DeletedIs(es, i, k);
    ChainSplit(es, i);
    LinkAt(0, es, i);
    LastSizeIs(es, i);
    if k < |es| {
      var bs := [Fitted(es[k], es[i].prev, false)] + es[k + 1..];
      FittedIs(es[k], es[i].prev, false);
      if k + 1 < |es| {
        ChainSplit(es, k + 1);
        assert bs[1] == es[k + 1] && bs[2..] == es[k + 2..];
      }
      FixedChain(bs);
      ChainedAppend(0, es[..i], Fixed(bs));
    } else {
      assert es[..i] + [] == es[..i];
    }
  }

  // ----- Deleting -----

  /** Deletion when an entry follows, first part: link that entry to the one before the
      stretch, and bring the tail offset up to date. */
  method LinkOver(zl0: seq<Byte>, p0: nat, p1: nat, prevlen: nat, ghost es: seq<Entry>, ghost i: nat, ghost k: nat)
    returns (zl: seq<Byte>, p: nat, nextdiff: int, ghost tail: nat, ghost j: seq<Byte>)
    requires Rep(zl0, es) && i < k < |es| && p0 == OffsetOf(es, i) && p1 == OffsetOf(es, k) && prevlen == es[i].prev
    ensures prevlen <= UINT32_MAX && nextdiff == PrevSize(prevlen) - |Link(es[k])|
    ensures |zl| == |zl0| && p == p1 - nextdiff && |j| == p - p0 && p >= p0
    ensures var fs := [Fitted(es[k], prevlen, false)] + es[k + 1..];
            Mid(zl, tail, Count(zl0), Flat(es[..i]) + j, fs) && tail == HEADER + |Flat(es[..i])| + LastOffset(fs)
  {
    hide *;
    PrevBound(es[i]);
    RepFacts(zl0, es);
    HeaderIs();
    ReadAt(zl0, es, k);
    ThreeParts(es, i, k);
    OffsetIs(es, i);
    LinkChange(es[k], prevlen);
    RoomToGrow(es, i, k);
    ghost var f := Fitted(es[k], prevlen, false);
    ghost var fs, count := [f] + es[k + 1..], Count(zl0);
    FittedIs(es[k], prevlen, false);
    FittedLinkIs(prevlen, false);
    TailCloses(zl0, es, i, k, f);
    var totlen := p1 - p0;
    nextdiff := PrevSize(prevlen) - PrevLenSize(zl0, p1);
    p := p1 - nextdiff;
    Relink(zl0, es, i, k, prevlen);
    zl := Write(zl0, p, StorePrev(prevlen));
    j := zl[p0..p];
    ghost var a := Flat(es[..i]) + j;
    MidFacts(zl, TailOf(es), count, a, fs);
    MidTail(zl, TailOf(es), count, a, fs, TailOf(es) - totlen);
    zl := Write(zl, 4, LE(Tail(zl) - totlen, 4));
    tail := TailOf(es) - totlen;
    MidFacts(zl, tail, count, a, fs);
    SuffixHead(zl, p, fs);
    EntryRead(zl, p, f);
    AtEnd(zl, p + Size(f), fs[1..]);
    var next := ReadEntry(zl, p);
    if zl[p + next.headersize + next.len] != ZIP_END {
      TailFits(zl0, es, i, k, f);
      MidTail(zl, tail, count, a, fs, tail + nextdiff);
      zl := Write(zl, 4, LE(Tail(zl) + nextdiff, 4));
      tail := tail + nextdiff;
    }
  }

  lemma PrevBound(e: Entry)
    ensures e.prev <= UINT32_MAX
  {}

  /** A large entry before the stretch means a wide link in it. */
  lemma RoomToGrow(es: seq<Entry>, i: nat, k: nat)
    requires i < k <= |es|
    ensures PrevSize(es[i].prev) <= |Flat(es[i..k])|
  {
    hide Size, Body;
    FlatHead(es[i..k]);
    assert es[i..k][0] == es[i];
    assert |Raw(es[i])| >= PrevSize(es[i].prev);
  }

  lemma TailFits(zl: seq<Byte>, es: seq<Entry>, i: nat, k: nat, f: Entry)
    requires Rep(zl, es) && i < k && k + 1 < |es|
    ensures TailOf(es) - |Flat(es[i..k])| + Size(f) - Size(es[k]) >= 0
    ensures Size(f) - Size(es[k]) <= |Flat(es[i..k])| ==>
            TailOf(es) - |Flat(es[i..k])| + Size(f) - Size(es[k]) <= UINT32_MAX
  {
    hide *;
    RepFacts(zl, es);
    TailCloses(zl, es, i, k, f);
  }

  /** Deletion when an entry follows, second part: move it and what is behind it down. */
  method Close(zl0: seq<Byte>, p0: nat, p: nat, ghost tail: nat, ghost count: nat, ghost a: seq<Byte>,
               ghost j: seq<Byte>, ghost fs: seq<Entry>)
    returns (zl: seq<Byte>)
    requires Mid(zl0, tail, count, a + j, fs) && p0 == HEADER + |a| && p == p0 + |j|
    requires fs != [] && tail == HEADER + |a| + LastOffset(fs)
    ensures Ends(zl, count, a, fs) && |zl| == |zl0| - |j|
  {
    hide *;
    MidFacts(zl0, tail, count, a + j, fs);
    Closed(zl0, tail, count, a, j, fs);
    zl := MemMove(zl0, p0, p, |zl0| - p - 1);
    ghost var junk;
    zl, junk := Resize(zl, |zl| - (p - p0));
    MidEnds(zl, tail, count, a, fs);
  }

  /** Deletion up to the end: the entry before becomes the last one. */
  method CutOff(zl0: seq<Byte>, p0: nat, prevlen: nat, totlen: nat, ghost es: seq<Entry>, ghost i: nat)
    returns (zl: seq<Byte>)
    requires Rep(zl0, es) && i < |es| && p0 == OffsetOf(es, i) && prevlen == es[i].prev && totlen == |zl0| - 1 - p0
    ensures |zl| > HEADER && |zl| <= UINT32_MAX
    ensures zl == Block(|zl|, TailOf(es[..i]), Count(zl0), Flat(es[..i]) + [ZIP_END])
  {
    hide *;
    RepFacts(zl0, es);
    HeaderIs();
    CountBound(Count(zl0), |es|);
    EndAt(zl0, es);
    ThreeParts(es, i, |es|);
    OffsetIs(es, i);
    CutTail(zl0, es, i);
    zl := Write(zl0, 4, LE(p0 - prevlen, 4));
    ghost var junk, z := [], zl;
    zl, junk := Resize(zl, |zl| - totlen);
    CutBytes(zl0, TailOf(es), Count(zl0), Flat(es[..i]), Flat(es[i..|es|]), Flat(es[|es|..]), TailOf(es[..i]));
  }

  lemma CutTail(zl: seq<Byte>, es: seq<Entry>, i: nat)
    requires Rep(zl, es) && i < |es|
    ensures es[|es|..] == [] && Flat(es[|es|..]) == []
    ensures OffsetOf(es, i) - es[i].prev == TailOf(es[..i])
  {
    hide *;
    ReadAt(zl, es, i);
    assert es[|es|..] == [];
    FlatEmpty();
    FirstOffset(es);
    if i > 0 {
      NextOffset(es, i - 1);
      TailIs(es[..i]);
      LastOffsetIs(es[..i]);
      assert es[..i][..i - 1] == es[..i - 1];
      OffsetIs(es, i - 1);
    } else {
      TailNone();
      assert es[..i] == [];
    }
  }

  lemma TailNone()
    ensures TailOf([]) == HEADER
  {}

  lemma CutBytes(zl: seq<Byte>, tail: nat, count: nat, a: seq<Byte>, d: seq<Byte>, none: seq<Byte>, t: nat)
    requires zl == Block(|zl|, tail, count, a + d + none + [ZIP_END]) && none == []
    ensures var n := |zl| - |d|;
            && HEADER == 10 && n > HEADER
            && Write(Write(zl, 4, LE(t, 4))[..n - 1] + [ZIP_END], 0, LE(n, 4)) == Block(n, t, count, a + [ZIP_END])
  {
    hide Block, LE, Write;
    var n, end := |zl| - |d|, [ZIP_END];
    assert a + d + none + end == a + (d + end);
    BlockWrite(|zl|, tail, count, a + (d + end), t);
    BlockSplit(|zl|, t, count, a, d + end);
    var q := Block(|zl|, t, count, a);
    assert (q + (d + end))[..n - 1] == q;
    BlockSplit(|zl|, t, count, a, end);
    BlockWrite(|zl|, t, count, a + end, n);
  }

  /** The entries `fs` are those of `es` without `num` from entry `i` on, the links as wide as they
      were or have to be. */
  ghost predicate Deletes(es: seq<Entry>, i: nat, num: nat, fs: seq<Entry>)
    requires i < |es|
  {
    var k := if i + num <= |es| then i + num else |es|;
    if num == 0 then fs == es
    else
      && es[i].prev <= UINT32_MAX && (k < |es| ==> Room([Fitted(es[k], es[i].prev, false)] + es[k + 1..]))
      && fs == DeletedAt(es, i, k)
  }

  lemma DeletesIs(es: seq<Entry>, i: nat, num: nat, fs: seq<Entry>, k: nat)
    requires i < k <= |es| && k == (if i + num <= |es| then i + num else |es|) && es[i].prev <= UINT32_MAX
    requires k < |es| ==> Room([Fitted(es[k], es[i].prev, false)] + es[k + 1..])
    requires fs == DeletedAt(es, i, k)
    ensures Deletes(es, i, num, fs)
  {
    hide Room, Fitted, DeletedAt;
  }

  lemma DeletesNone(es: seq<Entry>, i: nat)
    requires i < |es|
    ensures Deletes(es, i, 0, es)
  {
    hide Room, Fitted, DeletedAt;
  }

  /** __ziplistDelete: `num` entries from entry `i` on, or as many as there are. */
  method Delete(zl0: seq<Byte>, p0: nat, num: nat, ghost es: seq<Entry>, ghost i: nat)
    returns (zl: seq<Byte>, ghost fs: seq<Entry>)
    requires Rep(zl0, es) && i < |es| && p0 == OffsetOf(es, i) && |zl0| + 4 * |es| + 8 <= UINT32_MAX
    ensures Rep(zl, fs) && Texts(fs) == Texts(es)[..i] + Texts(es)[if i + num <= |es| then i + num else |es|..]
    ensures Stores(zl, Texts(es)[..i] + Texts(es)[if i + num <= |es| then i + num else |es|..])
    ensures Deletes(es, i, num, fs)
    ensures |es| >= |fs| && (Count(zl0) < UINT16_MAX ==> Count(zl0) == |es|)
    ensures Count(zl) == Recount(Count(zl0), |fs| - |es|)
  {
    hide *;
    ReadAt(zl0, es, i);
    EntryRead(zl0, p0, es[i]);
    RepFacts(zl0, es);
    CountFacts(Count(zl0), |es|);
    zl, fs := zl0, es;
    var first := ReadEntry(zl, p0);
    var p, deleted: nat := p0, 0;
    while zl[p] != ZIP_END && deleted < num
      invariant i + deleted <= |es| && deleted <= num && p == OffsetOf(es, i + deleted) && p < |zl|
      invariant (zl[p] == ZIP_END <==> i + deleted == |es|)
      decreases num - deleted
    {
      ReadAt(zl, es, i + deleted);
      p, deleted := p + RawEntryLength(zl, p), deleted + 1;
    }
    ghost var k := i + deleted;
    ThreeParts(es, i, k);
    var totlen := p - p0;
    TextsCut(es, i);
    assert Texts(es)[..i] + Texts(es)[i..] == Texts(es);
    if totlen > 0 {
      RepFacts(zl, es);
      PrevBound(es[i]);
      OffsetIs(es, i);
      CountFewer(Count(zl), |es|, deleted);
      var count := if Count(zl) < UINT16_MAX then Count(zl) - deleted else Count(zl);
      if zl[p] != ZIP_END {
        zl, fs := DeleteInner(zl, p0, p, first.prevrawlen, count, es, i, k);
      } else {
        EndAt(zl, es);
        zl := CutOff(zl, p0, first.prevrawlen, totlen, es, i);
        HeaderIs();
        fs := DeletedAt(es, i, k);
        DeletedIs(es, i, k);
        DeletedTexts(es, i, k);
        DeletedChain(es, i, k);
        assert fs == es[..i];
        BlockWrite(|zl|, TailOf(fs), Count(zl0), Flat(fs) + [ZIP_END], count);
        zl := Write(zl, 8, LE(count, 2));
        RepIs(zl, count, fs);
      }
      DeletesIs(es, i, num, fs, k);
    } else {
      DeletesNone(es, i);
    }
    RecountIs(Count(zl0), |fs| - |es|);
    StoresTexts(zl, fs);
  }

  lemma CountFewer(count: nat, n: nat, deleted: nat)
    requires CountOk(count, n) && deleted <= n
    ensures count < UINT16_MAX ==> count >= deleted && CountOk(count - deleted, n - deleted)
    ensures count >= UINT16_MAX ==> CountOk(count, n - deleted)
  {}

  method DeleteInner(zl0: seq<Byte>, p0: nat, p1: nat, prevlen: nat, count: nat, ghost es: seq<Entry>, ghost i: nat,
                     ghost k: nat)
    returns (zl: seq<Byte>, ghost fs: seq<Entry>)
    requires Rep(zl0, es) && i < k < |es| && p0 == OffsetOf(es, i) && p1 == OffsetOf(es, k) && prevlen == es[i].prev
    requires |zl0| + 4 * |es| + 8 <= UINT32_MAX && CountOk(count, |es| - (k - i))
    ensures Rep(zl, fs) && Texts(fs) == Texts(es)[..i] + Texts(es)[k..]
    ensures es[i].prev <= UINT32_MAX && Room([Fitted(es[k], es[i].prev, false)] + es[k + 1..])
    ensures fs == DeletedAt(es, i, k) && Count(zl) == count
  {
    hide *;
    PrevBound(es[i]);
    RepFacts(zl0, es);
    OffsetIs(es, i);
    CountBound(count, |es| - (k - i));
    LinkChange(es[k], prevlen);
    ghost var bs, a := [Fitted(es[k], prevlen, false)] + es[k + 1..], Flat(es[..i]);
    ghost var tail, j;
    var p, nextdiff;
    zl, p, nextdiff, tail, j := LinkOver(zl0, p0, p1, prevlen, es, i, k);
    zl := Close(zl, p0, p, tail, Count(zl0), a, j, bs);
    EndsCount(zl, Count(zl0), a, bs, count);
    zl := Write(zl, 8, LE(count, 2));
    RoomIs(zl, count, a, bs);
    if nextdiff != 0 {
      zl := CascadeUpdate(zl, p0, count, a, bs);
    } else {
      FittedIs(es[k], prevlen, false);
      FittedLinkIs(prevlen, false);
      NoCascade(es, k, Fitted(es[k], prevlen, false));
    }
    fs := DeletedAt(es, i, k);
    DeletedIs(es, i, k);
    DeletedTexts(es, i, k);
    DeletedChain(es, i, k);
    EndsRep(zl, count, es[..i], Fixed(bs));
  }

  lemma DeleteRangeIs(ts: seq<Octets>, index: int, num: nat)
    ensures var i := if index >= 0 then index else |ts| + index;
            ZlDeleteRange(ts, index, num)
              == if 0 <= i < |ts| then ts[..i] + ts[if i + num <= |ts| then i + num else |ts|..] else ts
  {}

  /** ziplistDeleteRange: nothing if there is no entry at the index. */
  method DeleteRange(zl0: seq<Byte>, index: int, num: nat, ghost es: seq<Entry>)
    returns (zl: seq<Byte>, ghost fs: seq<Entry>)
    requires Rep(zl0, es) && |zl0| + 4 * |es| + 8 <= UINT32_MAX
    ensures Rep(zl, fs) && Texts(fs) == ZlDeleteRange(Texts(es), index, num)
    ensures Stores(zl, ZlDeleteRange(Texts(es), index, num))
    ensures var i := if index >= 0 then index else |es| + index;
            if 0 <= i < |es| then Deletes(es, i, num, fs) else fs == es
    ensures |es| >= |fs| && (Count(zl0) < UINT16_MAX ==> Count(zl0) == |es|)
    ensures Count(zl) == Recount(Count(zl0), |fs| - |es|)
  {
    hide *;
    zl, fs := zl0, es;
    DeleteRangeIs(Texts(es), index, num);
    RepFacts(zl0, es);
    CountFacts(Count(zl0), |es|);
    RecountIs(Count(zl0), 0);
    var p := Index(zl0, index, es);
    if p.Some? { zl, fs := Delete(zl0, p.value, num, es, if index >= 0 then index else |es| + index); }
    StoresTexts(zl, fs);
  }
}
