/** Insertion into a ziplist. */
module ZipInsert {
  import opened Bytes
  import opened Endian
  import opened Memory
  import opened Seqs
  import opened ZipCascade
  import opened ZipEntry
  import opened ZipLayout
  import opened ZipTexts
  import opened Ziplist

  /** The entry that follows the new one, its link holding the new entry's size; `force` keeps
      a wide link that a narrow one could replace. */
  function Fitted(e: Entry, len: nat, force: bool): Entry
    requires len <= UINT32_MAX
  {
    Item(force || len >= ZIP_BIG_PREVLEN, len, e.content)
  }

  /** Its link. */
  function FittedLink(len: nat, force: bool): seq<Byte> { if force then StoreLarge(len) else StorePrev(len) }

  /** Shifting what follows `q` by `req` bytes while its link changes from `l` to `link`. */
  lemma ShiftBytes(q: seq<Byte>, l: seq<Byte>, t: seq<Byte>, junk: seq<Byte>, link: seq<Byte>, req: nat, diff: int)
    requires |link| == |l| + diff && |l| > 0 && |link| > 0 && |junk| == req + diff
    requires junk != [] ==> junk[|junk| - 1] == ZIP_END
    requires |q| >= diff && -|l| < diff <= |link|
    ensures var z := q + (l + (t + [ZIP_END])) + junk;
            && |q| + req + |link| <= |z| && |q| + |l| + |t| <= |z| && |q| + req + |l| + |t| + diff <= |z|
            && var w := Write(MemMove(z, |q| + req, |q| - diff, |l| + |t| + diff), |q| + req, link);
               w == q + w[|q|..|q| + req] + (link + (t + [ZIP_END]))
  {
    hide *;
    var z, at, n := q + (l + (t + [ZIP_END])) + junk, |q| + req, |l| + |t| + diff;
    ShiftParts(q, l, t, junk);
    var m := MemMove(z, at, |q| - diff, n);
    MovedParts(z, at, |q| - diff, n, |link|);
    WrittenAt(m, at, link);
    assert m[..at][..|q|] == z[..at][..|q|] == q;
    assert m[at + |link|..] == t + [ZIP_END];
    Regrouped(Write(m, at, link), q, at, link + (t + [ZIP_END]));
  }

  lemma ShiftParts(q: seq<Byte>, l: seq<Byte>, t: seq<Byte>, junk: seq<Byte>)
    requires junk != [] ==> junk[|junk| - 1] == ZIP_END
    ensures var z := q + (l + (t + [ZIP_END])) + junk;
            && |z| == |q| + |l| + |t| + 1 + |junk| && z[..|q|] == q && z[|z| - 1..] == [ZIP_END]
            && z[|q| + |l|..|q| + |l| + |t|] == t
            && forall at {:trigger z[..at]} :: |q| <= at <= |z| ==> z[..at][..|q|] == q
  {}

  lemma MovedParts(z: seq<Byte>, to: nat, from: nat, n: nat, k: nat)
    requires to + n <= |z| && from + n <= |z| && k <= n
    ensures var m := MemMove(z, to, from, n);
            m[..to] == z[..to] && m[to + k..] == z[from + k..from + n] + z[to + n..]
  {}

  lemma Regrouped(w: seq<Byte>, q: seq<Byte>, at: nat, end: seq<Byte>)
    requires |q| <= at <= |w| && w[..at][..|q|] == q && w[at..] == end
    ensures w == q + w[|q|..at] + end
  {
    assert w[..|q|] == q;
  }

  lemma WrittenAt(z: seq<Byte>, at: nat, link: seq<Byte>)
    requires at + |link| <= |z|
    ensures Write(z, at, link)[..at] == z[..at] && Write(z, at, link)[at..] == link + z[at + |link|..]
  {}

  // ----- Making room -----

  /** A block that ends in these entries, while its tail offset is being brought up to date. */
  ghost predicate Mid(zl: seq<Byte>, tail: nat, count: nat, a: seq<Byte>, es: seq<Entry>)
  {
    Fields(|zl|, tail, count) && zl == Block(|zl|, tail, count, a + (Flat(es) + [ZIP_END]))
  }

  lemma MidFacts(zl: seq<Byte>, tail: nat, count: nat, a: seq<Byte>, es: seq<Entry>)
    requires Mid(zl, tail, count, a, es)
    ensures |zl| > HEADER && |zl| == HEADER + |a| + |Flat(es)| + 1 && Tail(zl) == tail && Suffix(zl, HEADER + |a|, es)
  {
    hide Block, Flat, Suffix, Fields;
    BlockRead(|zl|, tail, count, a + (Flat(es) + [ZIP_END]));
    BlockSplit(|zl|, tail, count, a, Flat(es) + [ZIP_END]);
    SuffixIs(zl, Block(|zl|, tail, count, a), es);
  }

  lemma MidTail(zl: seq<Byte>, tail: nat, count: nat, a: seq<Byte>, es: seq<Entry>, t: nat)
    requires Mid(zl, tail, count, a, es) && t <= UINT32_MAX
    ensures |zl| > HEADER && HEADER == 10 && Mid(Write(zl, 4, LE(t, 4)), t, count, a, es)
  {
    MidFacts(zl, tail, count, a, es);
    hide Block, Flat, Write, LE, Suffix, Tail;
    BlockWrite(|zl|, tail, count, a + (Flat(es) + [ZIP_END]), t);
  }

  lemma MidEnds(zl: seq<Byte>, tail: nat, count: nat, a: seq<Byte>, es: seq<Entry>)
    requires Mid(zl, tail, count, a, es) && es != [] && tail == HEADER + |a| + LastOffset(es)
    ensures Ends(zl, count, a, es)
  {
    hide Block, Flat, LastOffset;
    EndsIs(zl, tail, count, a, es);
  }

  /** The entries from `i` on, taken apart at the first one's link. */
  lemma RawIs(e: Entry)
    ensures ContentOk(e.content) && Raw(e) == Link(e) + Body(e.content)
  {}

  lemma FlatFrom(es: seq<Entry>, i: nat)
    requires i < |es|
    ensures ContentOk(es[i].content)
    ensures Flat(es) == Flat(es[..i]) + (Link(es[i]) + (Body(es[i].content) + Flat(es[i + 1..])))
  {
    hide *;
    assert es == es[..i] + es[i..];
    assert es[i..][1..] == es[i + 1..];
    RawIs(es[i]);
    FlatAppend(es[..i], es[i..]);
    FlatHead(es[i..]);
    Assoc(Link(es[i]), Body(es[i].content), Flat(es[i + 1..]));
  }

  lemma FlatFitted(e: Entry, f: Entry, rest: seq<Entry>, link: seq<Byte>)
    requires ContentOk(e.content) && f.content == e.content && link == Link(f)
    ensures Flat([f] + rest) == link + (Body(e.content) + Flat(rest))
  {
    hide Body, Link, Flat;
    assert ([f] + rest)[1..] == rest;
    FlatHead([f] + rest);
    Assoc(link, Body(e.content), Flat(rest));
  }

  /** The block after the move and the write of the link. */
  lemma Opened(zl: seq<Byte>, junk: seq<Byte>, es: seq<Entry>, i: nat, req: nat, force: bool)
    requires Rep(zl, es) && i < |es| && req <= UINT32_MAX
    requires var diff := |FittedLink(req, force)| - |Link(es[i])|;
             |junk| == req + diff && |zl| + |junk| <= UINT32_MAX && (junk != [] ==> junk[|junk| - 1] == ZIP_END)
    ensures var diff, p := |FittedLink(req, force)| - |Link(es[i])|, OffsetOf(es, i);
            var n := |zl| + |junk|;
            && 4 <= |zl| && |LE(n, 4)| == 4 && p >= diff && p < |zl| && |zl| - p - 1 + diff >= 0
            && p + req + (|zl| - p - 1 + diff) <= n && p - diff + (|zl| - p - 1 + diff) <= n
               && p + req + |FittedLink(req, force)| <= n
            && var z := Write(zl + junk, 0, LE(n, 4));
               var w := Write(MemMove(z, p + req, p - diff, |zl| - p - 1 + diff), p + req, FittedLink(req, force));
               Mid(w, TailOf(es), Count(zl), Flat(es[..i]) + w[p..p + req], [Fitted(es[i], req, force)] + es[i + 1..])
  {
    hide *;
    RepFacts(zl, es);
    FlatFrom(es, i);
    FittedIs(es[i], req, force);
    CountBound(Count(zl), |es|);
    TailAt(zl, es);
    var diff, p, n := |FittedLink(req, force)| - |Link(es[i])|, OffsetOf(es, i), |zl| + |junk|;
    var a, l, t, link, f := Flat(es[..i]), Link(es[i]), Body(es[i].content) + Flat(es[i + 1..]), FittedLink(req, force),
      Fitted(es[i], req, force);
    OffsetIs(es, i);
    HeaderIs();
    FlatFitted(es[i], f, es[i + 1..], link);
    OpenedBytes(zl, junk, TailOf(es), Count(zl), a, l, t, link, req);
    var z := Write(zl + junk, 0, LE(n, 4));
    var w := Write(MemMove(z, p + req, p - diff, |zl| - p - 1 + diff), p + req, link);
    Assoc(link, t, [ZIP_END]);
    MidIs(w, TailOf(es), Count(zl), a + w[p..p + req], [f] + es[i + 1..]);
  }

  lemma HeaderIs()
    ensures HEADER == 10
  {}

  lemma OffsetIs(es: seq<Entry>, i: nat)
    requires i <= |es|
    ensures OffsetOf(es, i) == HEADER + |Flat(es[..i])|
  {}

  lemma CountBound(count: nat, n: nat)
    requires CountOk(count, n)
    ensures count <= UINT16_MAX
  {}

  lemma MidIs(zl: seq<Byte>, tail: nat, count: nat, a: seq<Byte>, es: seq<Entry>)
    requires |zl| <= UINT32_MAX && tail <= UINT32_MAX && count <= UINT16_MAX
    requires zl == Block(|zl|, tail, count, a + (Flat(es) + [ZIP_END]))
    ensures Mid(zl, tail, count, a, es)
  {
    hide Block, Flat;
  }

  lemma FittedIs(e: Entry, req: nat, force: bool)
    requires req <= UINT32_MAX
    ensures var f := Fitted(e, req, force);
            && f.content == e.content && f.prev == req && Link(f) == FittedLink(req, force)
            && |Link(f)| in {1, 5} && |Link(e)| in {1, 5} && Size(f) == Size(e) + |Link(f)| - |Link(e)|
  {
    hide Body;
  }

  /** The block made longer: its new size written, and after its bytes those of the new memory. */
  lemma LongerBytes(zl: seq<Byte>, junk: seq<Byte>, tail: nat, count: nat, a: seq<Byte>, l: seq<Byte>, t: seq<Byte>)
    requires zl == Block(|zl|, tail, count, a + (l + t) + [ZIP_END])
    ensures var n := |zl| + |junk|;
            var q := Block(n, tail, count, a);
            && |q| == HEADER + |a| && |zl| == |q| + |l| + |t| + 1 && |LE(n, 4)| == 4
            && Write(zl + junk, 0, LE(n, 4)) == q + (l + (t + [ZIP_END])) + junk
  {
    hide Block, Write;
    var n, rest := |zl| + |junk|, l + (t + [ZIP_END]);
    Assoc(a, l + t, [ZIP_END]);
    Assoc(l, t, [ZIP_END]);
    BlockSplit(|zl|, tail, count, a + rest, junk);
    BlockWrite(|zl|, tail, count, a + rest + junk, n);
    BlockSplit(n, tail, count, a + rest, junk);
    BlockSplit(n, tail, count, a, rest);
    BlockSize(n, tail, count, a);
    BlockSize(|zl|, tail, count, a + rest);
  }

  lemma BlockSize(total: nat, tail: nat, count: nat, rest: seq<Byte>)
    ensures |Block(total, tail, count, rest)| == HEADER + |rest| && |LE(total, 4)| == 4
  {}

  lemma JoinBytes(n: nat, tail: nat, count: nat, a: seq<Byte>, j: seq<Byte>, b: seq<Byte>)
    ensures Block(n, tail, count, a) + j + b == Block(n, tail, count, a + j + b)
  {
    hide Block;
    Assoc(a, j, b);
    BlockSplit(n, tail, count, a, j + b);
    Assoc(Block(n, tail, count, a), j, b);
  }

  lemma OpenedBytes(zl: seq<Byte>, junk: seq<Byte>, tail: nat, count: nat, a: seq<Byte>, l: seq<Byte>, t: seq<Byte>,
                    link: seq<Byte>, req: nat)
    requires zl == Block(|zl|, tail, count, a + (l + t) + [ZIP_END])
    requires |l| in {1, 5} && |link| in {1, 5} && |junk| == req + |link| - |l|
    requires junk != [] ==> junk[|junk| - 1] == ZIP_END
    ensures var diff, p, n := |link| - |l|, HEADER + |a|, |zl| + |junk|;
            && 4 <= |zl| && |LE(n, 4)| == 4 && p >= diff && p < |zl| && |zl| - p - 1 + diff >= 0
            && p + req + (|zl| - p - 1 + diff) <= n && p - diff + (|zl| - p - 1 + diff) <= n && p + req + |link| <= n
            && var z := Write(zl + junk, 0, LE(n, 4));
               var w := Write(MemMove(z, p + req, p - diff, |zl| - p - 1 + diff), p + req, link);
               |w| == n && w == Block(n, tail, count, a + w[p..p + req] + (link + (t + [ZIP_END])))
  {
    hide Block, LE, Write, MemMove;
    LongerBytes(zl, junk, tail, count, a, l, t);
    var diff, p, n := |link| - |l|, HEADER + |a|, |zl| + |junk|;
    var q := Block(n, tail, count, a);
    ShiftBytes(q, l, t, junk, link, req, diff);
    var w := Write(MemMove(Write(zl + junk, 0, LE(n, 4)), p + req, p - diff, |zl| - p - 1 + diff), p + req, link);
    JoinBytes(n, tail, count, a, w[p..p + req], link + (t + [ZIP_END]));
  }

  /** Insertion before entry `i`, first part: make the block longer, move the entries from
      there on back by `reqlen` bytes and write the new entry's size into the first of them.
      `j` are the bytes the new entry will overwrite. */
  method Shift(zl0: seq<Byte>, p: nat, reqlen: nat, nextdiff: int, forcelarge: bool, ghost es: seq<Entry>, ghost i: nat)
    returns (zl: seq<Byte>, ghost j: seq<Byte>)
    requires Rep(zl0, es) && i < |es| && p == OffsetOf(es, i) && reqlen <= UINT32_MAX
    requires |zl0| + reqlen + nextdiff <= UINT32_MAX
    requires nextdiff == |FittedLink(reqlen, forcelarge)| - |Link(es[i])| && reqlen + nextdiff >= 0
    ensures |j| == reqlen && |zl| == |zl0| + reqlen + nextdiff
    ensures Mid(zl, TailOf(es), Count(zl0), Flat(es[..i]) + j, [Fitted(es[i], reqlen, forcelarge)] + es[i + 1..])
  {
    hide *;
    RepFacts(zl0, es);
    EndAt(zl0, es);
    var curlen, offset := |zl0|, p;
    ghost var junk;
    LongerThanHeader(zl0, es, i);
    zl, junk := Resize(zl0, curlen + reqlen + nextdiff);
    Opened(zl0, junk, es, i, reqlen, forcelarge);
    FittedLinkIs(reqlen, forcelarge);
    zl := MemMove(zl, p + reqlen, p - nextdiff, curlen - offset - 1 + nextdiff);
    zl := Write(zl, p + reqlen, if forcelarge then StoreLarge(reqlen) else StorePrev(reqlen));
    j := zl[p..p + reqlen];
  }

  /** Second part: the tail offset. A change in the size of the next entry's link matters only
      if that entry is not the last. */
  method Open(zl0: seq<Byte>, p: nat, reqlen: nat, nextdiff: int, forcelarge: bool, ghost es: seq<Entry>, ghost i: nat)
    returns (zl: seq<Byte>, ghost j: seq<Byte>)
    requires Rep(zl0, es) && i < |es| && p == OffsetOf(es, i) && |zl0| + reqlen + 4 <= UINT32_MAX
    requires nextdiff == |FittedLink(reqlen, forcelarge)| - |Link(es[i])| <= 4 && reqlen + nextdiff >= 0
    ensures |j| == reqlen && |zl| == |zl0| + reqlen + nextdiff
    ensures reqlen <= UINT32_MAX
    ensures Ends(zl, Count(zl0), Flat(es[..i]) + j, [Fitted(es[i], reqlen, forcelarge)] + es[i + 1..])
  {
    hide *;
    RepFacts(zl0, es);
    ghost var f := Fitted(es[i], reqlen, forcelarge);
    ghost var fs, tail, count := [f] + es[i + 1..], TailOf(es), Count(zl0);
    OffsetIs(es, i);
    HeaderIs();
    FittedIs(es[i], reqlen, forcelarge);
    TailMoves(zl0, es, i, f, reqlen);
    zl, j := Shift(zl0, p, reqlen, nextdiff, forcelarge, es, i);
    ghost var a := Flat(es[..i]) + j;
    MidFacts(zl, tail, count, a, fs);
    MidTail(zl, tail, count, a, fs, tail + reqlen);
    zl := Write(zl, 4, LE(Tail(zl) + reqlen, 4));
    MidFacts(zl, tail + reqlen, count, a, fs);
    SuffixHead(zl, p + reqlen, fs);
    EntryRead(zl, p + reqlen, f);
    AtEnd(zl, p + reqlen + Size(f), fs[1..]);
    var next := ReadEntry(zl, p + reqlen);
    if zl[p + reqlen + next.headersize + next.len] != ZIP_END {
      MidTail(zl, tail + reqlen, count, a, fs, tail + reqlen + nextdiff);
      zl := Write(zl, 4, LE(Tail(zl) + nextdiff, 4));
      MidEnds(zl, tail + reqlen + nextdiff, count, a, fs);
    } else {
      MidEnds(zl, tail + reqlen, count, a, fs);
    }
  }

  lemma FittedLinkIs(len: nat, force: bool)
    ensures FittedLink(len, force) == if force then StoreLarge(len) else StorePrev(len)
  {}

  lemma LongerThanHeader(zl: seq<Byte>, es: seq<Entry>, i: nat)
    requires Rep(zl, es) && i < |es|
    ensures |zl| > HEADER + 2
  {
    hide *;
    ReadAt(zl, es, i);
    OffsetIs(es, i);
  }

  /** Where the last entry is once room has been made before entry `i`. */
  lemma TailMoves(zl: seq<Byte>, es: seq<Entry>, i: nat, f: Entry, req: nat)
    requires Rep(zl, es) && i < |es|
    ensures var fs := [f] + es[i + 1..];
            && fs[0] == f && fs[1..] == es[i + 1..] && fs != []
            && TailOf(es) + req + (if i + 1 < |es| then Size(f) - Size(es[i]) else 0)
               == HEADER + |Flat(es[..i])| + req + LastOffset(fs)
    ensures TailOf(es) < |zl|
  {
    hide *;
    TailAt(zl, es);
    RepFacts(zl, es);
    var fs := [f] + es[i + 1..];
    assert fs[1..] == es[i + 1..] && es == es[..i] + es[i..] && es[i..][1..] == es[i + 1..];
    TailIs(es);
    LastOffsetJoin(es[..i], es[i..]);
    if i + 1 < |es| {
      LastOffsetStep(fs);
      LastOffsetStep(es[i..]);
    } else {
      LastOffsetSingle(fs);
      LastOffsetSingle(es[i..]);
    }
  }

  lemma TailIs(es: seq<Entry>)
    requires es != []
    ensures TailOf(es) == HEADER + LastOffset(es)
  {
    hide LastOffset;
  }

  lemma LastOffsetSingle(es: seq<Entry>)
    requires |es| == 1
    ensures LastOffset(es) == 0
  {}

  // ----- The list with the new entry -----

  /** The entries after an insertion before entry `i`: the links behind the new entry follow. */
  function InsertedAt(es: seq<Entry>, i: nat, x: Entry, force: bool): (fs: seq<Entry>)
    requires i <= |es| && Size(x) <= UINT32_MAX && (i < |es| ==> Room([Fitted(es[i], Size(x), force)] + es[i + 1..]))
    ensures |fs| == |es| + 1
  {
    es[..i] + [x] + (if i == |es| then [] else Fixed([Fitted(es[i], Size(x), force)] + es[i + 1..]))
  }

  lemma InsertedTexts(es: seq<Entry>, i: nat, x: Entry, force: bool)
    requires i <= |es| && Size(x) <= UINT32_MAX && (i < |es| ==> Room([Fitted(es[i], Size(x), force)] + es[i + 1..]))
    ensures Texts(InsertedAt(es, i, x, force)) == With(Texts(es), i, TextOf(x.content))
  {
    hide *;
    InsertedIs(es, i, x, force);
    TextsCut(es, i);
    TextsJoin(es[..i], [x]);
    WithJoin(Texts(es), i, TextOf(x.content));
    if i < |es| {
      RestTexts(es, i, Size(x), force);
      TextsJoin(es[..i] + [x], Fixed([Fitted(es[i], Size(x), force)] + es[i + 1..]));
    } else {
      TextsJoin(es[..i] + [x], []);
      SameTexts(es[i..], []);
    }
  }

  lemma WithJoin(ts: seq<Octets>, i: nat, t: Octets)
    requires i <= |ts|
    ensures With(ts, i, t) == ts[..i] + [t] + ts[i..]
  {}

  /** Refitting and cascading leaves the texts from entry `i` on. */
  lemma RestTexts(es: seq<Entry>, i: nat, len: nat, force: bool)
    requires i < |es| && len <= UINT32_MAX && Room([Fitted(es[i], len, force)] + es[i + 1..])
    ensures Texts(Fixed([Fitted(es[i], len, force)] + es[i + 1..])) == Texts(es[i..])
  {
    hide *;
    var bs := [Fitted(es[i], len, force)] + es[i + 1..];
    FixedContents(bs);
    FittedIs(es[i], len, force);
    assert forall k :: 0 <= k < |bs| ==> bs[k].content == es[i..][k].content;
    SameTexts(es[i..], Fixed(bs));
  }

  lemma TextsCut(es: seq<Entry>, i: nat)
    requires i <= |es|
    ensures Texts(es)[..i] == Texts(es[..i]) && Texts(es)[i..] == Texts(es[i..])
  {
    hide TextOf;
  }

  lemma TextsJoin(a: seq<Entry>, b: seq<Entry>)
    ensures Texts(a + b) == Texts(a) + Texts(b)
    ensures |b| == 1 ==> Texts(b) == [TextOf(b[0].content)]
    ensures Texts(a + b)[..|a|] == Texts(a) && Texts(a + b)[|a|..] == Texts(b)
  {
    hide TextOf;
  }

  lemma SameTexts(a: seq<Entry>, b: seq<Entry>)
    requires |a| == |b| && forall k :: 0 <= k < |a| ==> a[k].content == b[k].content
    ensures Texts(a) == Texts(b)
  {
    hide TextOf;
  }

  lemma FixedContents(es: seq<Entry>)
    requires es != [] && Room(es)
    ensures forall k :: 0 <= k < |es| ==> Fixed(es)[k].content == es[k].content
  {
    hide Size, Fix, Room;
    RoomTail(es);
    FixContents(Size(es[0]), es[1..]);
  }

  lemma ChainJoin(a: seq<Entry>, x: Entry, b: seq<Entry>)
    requires Chained(0, a) && x.prev == LastSize(0, a) && Chained(Size(x), b)
    ensures Chained(0, a + [x] + b)
  {
    hide Size;
    ChainedAppend(0, a, [x]);
    ChainedAppend(0, a + [x], b);
    assert [x][1..] == [];
  }

  lemma ChainSplit(es: seq<Entry>, i: nat)
    requires Chained(0, es) && i <= |es|
    ensures Chained(0, es[..i])
    ensures i < |es| ==> Chained(Size(es[i]), es[i + 1..])
  {
    hide Size;
    assert es == es[..i] + es[i..];
    ChainedAppend(0, es[..i], es[i..]);
    if i < |es| { assert es[i..][1..] == es[i + 1..]; }
  }

  /** After the cascade the entries are chained from their first one's link on. */
  lemma FixedChain(bs: seq<Entry>)
    requires bs != [] && Room(bs) && (bs[1..] == [] || Chained(Size(bs[1]), bs[2..]))
    ensures Chained(bs[0].prev, Fixed(bs))
  {
    hide Size, Room, Fix;
    RoomTail(bs);
    if |bs| > 1 { assert bs[1..][1..] == bs[2..]; }
    FixChained(Size(bs[0]), bs[1..]);
    assert Fixed(bs)[1..] == Fix(Size(bs[0]), bs[1..]);
  }

  lemma InsertedChain(es: seq<Entry>, i: nat, x: Entry, force: bool)
    requires Chained(0, es) && i <= |es| && Size(x) <= UINT32_MAX
    requires i < |es| ==> Room([Fitted(es[i], Size(x), force)] + es[i + 1..])
    requires x.prev == LastSize(0, es[..i])
    ensures Chained(0, InsertedAt(es, i, x, force))
  {
    hide *;
    InsertedIs(es, i, x, force);
    ChainSplit(es, i);
    if i < |es| {
      var bs := [Fitted(es[i], Size(x), force)] + es[i + 1..];
      FittedIs(es[i], Size(x), force);
      if i + 1 < |es| {
        ChainSplit(es, i + 1);
        assert bs[1] == es[i + 1] && bs[2..] == es[i + 2..];
      }
      FixedChain(bs);
      ChainJoin(es[..i], x, Fixed(bs));
    } else {
      ChainNone(Size(x));
      ChainJoin(es[..i], x, []);
    }
  }

  lemma InsertedIs(es: seq<Entry>, i: nat, x: Entry, force: bool)
    requires i <= |es| && Size(x) <= UINT32_MAX && (i < |es| ==> Room([Fitted(es[i], Size(x), force)] + es[i + 1..]))
    ensures i == |es| ==> InsertedAt(es, i, x, force) == es[..i] + [x] + []
    ensures i < |es| ==>
            InsertedAt(es, i, x, force) == es[..i] + [x] + Fixed([Fitted(es[i], Size(x), force)] + es[i + 1..])
  {
    hide Size, Room, Fixed;
  }

  lemma ChainNone(prev: nat)
    ensures Chained(prev, [])
  {}

  /** Without a change in the next entry's size nothing follows. */
  lemma NoCascade(es: seq<Entry>, i: nat, f: Entry)
    requires Chained(0, es) && i < |es| && Size(f) == Size(es[i]) && Room([f] + es[i + 1..])
    ensures Fixed([f] + es[i + 1..]) == [f] + es[i + 1..]
  {
    hide Size, Room;
    RoomTail([f] + es[i + 1..]);
    assert ([f] + es[i + 1..])[1..] == es[i + 1..];
    if i + 1 < |es| { LinkAt(0, es, i + 1); }
  }

  /** A block with a gap `j` for the new entry. */
  ghost predicate Gap(zl: seq<Byte>, count: nat, a: seq<Entry>, j: seq<Byte>, x: Entry, b: seq<Entry>)
  {
    && |j| == Size(x) && |zl| <= UINT32_MAX && count <= UINT16_MAX
    && zl == Block(|zl|, TailOf(a + [x] + b), count, Flat(a) + j + (Flat(b) + [ZIP_END]))
  }

  lemma EndsGap(zl: seq<Byte>, count: nat, a: seq<Entry>, j: seq<Byte>, x: Entry, b: seq<Entry>)
    requires Ends(zl, count, Flat(a) + j, b) && |j| == Size(x)
    ensures Gap(zl, count, a, j, x, b)
  {
    hide Block, Flat, LastOffset, Size;
    LastOffsetJoin(a + [x], b);
    FlatAppend(a, [x]);
    FlatOne(x);
  }

  /** Appending: the gap is where the end byte was. */
  lemma EndGap(zl: seq<Byte>, junk: seq<Byte>, es: seq<Entry>, x: Entry)
    requires Rep(zl, es) && |junk| == Size(x) && junk[|junk| - 1] == ZIP_END && |zl| + |junk| <= UINT32_MAX
    ensures var n, j := |zl| + |junk|, ([ZIP_END] + junk)[..Size(x)];
            && |zl| > HEADER == 10
            && Gap(Write(Write(zl + junk, 0, LE(n, 4)), 4, LE(|zl| - 1, 4)), Count(zl), es, j, x, [])
  {
    hide *;
    RepFacts(zl, es);
    HeaderIs();
    AppendTail(es, x);
    CountBound(Count(zl), |es|);
    FlatEmpty();
    AppendBytes(zl, junk, TailOf(es), Count(zl), Flat(es));
    EndShifts(Flat(es), junk);
    var n, j := |zl| + |junk|, ([ZIP_END] + junk)[..Size(x)];
    assert Flat([]) + [ZIP_END] == [ZIP_END];
    GapIs(Write(Write(zl + junk, 0, LE(n, 4)), 4, LE(|zl| - 1, 4)), Count(zl), es, j, x, []);
  }

  lemma GapIs(zl: seq<Byte>, count: nat, a: seq<Entry>, j: seq<Byte>, x: Entry, b: seq<Entry>)
    requires |j| == Size(x) && |zl| <= UINT32_MAX && count <= UINT16_MAX
    requires zl == Block(|zl|, TailOf(a + [x] + b), count, Flat(a) + j + (Flat(b) + [ZIP_END]))
    ensures Gap(zl, count, a, j, x, b)
  {
    hide Block, Flat, Size, TailOf;
  }

  lemma EndShifts(a: seq<Byte>, junk: seq<Byte>)
    requires junk != [] && junk[|junk| - 1] == ZIP_END
    ensures a + [ZIP_END] + junk == a + ([ZIP_END] + junk)[..|junk|] + [ZIP_END]
  {
    var s := [ZIP_END] + junk;
    assert s[|junk|] == junk[|junk| - 1];
    assert s == s[..|junk|] + [ZIP_END];
    Assoc(a, [ZIP_END], junk);
    Assoc(a, s[..|junk|], [ZIP_END]);
  }

  lemma AppendBytes(zl: seq<Byte>, junk: seq<Byte>, tail: nat, count: nat, a: seq<Byte>)
    requires zl == Block(|zl|, tail, count, a + [ZIP_END]) && junk != [] && junk[|junk| - 1] == ZIP_END
    ensures var n, at := |zl| + |junk|, HEADER + |a|;
            && |zl| == at + 1 && |zl| >= 8
            && Write(Write(zl + junk, 0, LE(n, 4)), 4, LE(at, 4)) == Block(n, at, count, a + [ZIP_END] + junk)
  {
    hide *;
    HeaderIs();
    var n, at, rest := |zl| + |junk|, HEADER + |a|, a + [ZIP_END] + junk;
    BlockSplit(|zl|, tail, count, a + [ZIP_END], junk);
    BlockWrite(|zl|, tail, count, rest, n);
    BlockWrite(n, tail, count, rest, at);
  }

  lemma FlatEmpty()
    ensures Flat([]) == []
  {}

  lemma AppendTail(es: seq<Entry>, x: Entry)
    ensures TailOf(es + [x] + []) == HEADER + |Flat(es)|
  {
    hide Flat;
    assert es + [x] + [] == es + [x] && (es + [x])[..|es|] == es;
  }

  lemma WriteInto(q: seq<Byte>, j: seq<Byte>, t: seq<Byte>, b: seq<Byte>)
    requires |b| == |j|
    ensures Write(q + j + t, |q|, b) == q + b + t
  {}

  /** Filling the gap and counting the entry. */
  lemma Filled(zl: seq<Byte>, count: nat, a: seq<Entry>, j: seq<Byte>, x: Entry, b: seq<Entry>)
    requires Gap(zl, count, a, j, x, b) && Chained(0, a + [x] + b) && CountOk(count, |a| + |b|)
    ensures |zl| > HEADER == 10 && HEADER + |Flat(a)| + Size(x) <= |zl|
    ensures var w := Write(zl, HEADER + |Flat(a)|, Raw(x));
            && Count(w) == count
            && (count < UINT16_MAX ==>
                 Rep(Write(w, 8, LE(count + 1, 2)), a + [x] + b) && Count(Write(w, 8, LE(count + 1, 2))) == count + 1)
            && (count == UINT16_MAX ==> Rep(w, a + [x] + b))
  {
    hide Block, Flat, LE, Write, Size, Chained, TailOf, Raw, Count;
    var es, end := a + [x] + b, [ZIP_END];
    var rest := Flat(b) + end;
    FlatAppend(a + [x], b);
    FlatAppend(a, [x]);
    FlatOne(x);
    Assoc(Flat(a) + Raw(x), Flat(b), end);
    BlockSplit(|zl|, TailOf(es), count, Flat(a) + j, rest);
    BlockSplit(|zl|, TailOf(es), count, Flat(a), j);
    BlockSplit(|zl|, TailOf(es), count, Flat(a) + Raw(x), rest);
    BlockSplit(|zl|, TailOf(es), count, Flat(a), Raw(x));
    WriteInto(Block(|zl|, TailOf(es), count, Flat(a)), j, rest, Raw(x));
    var w := Write(zl, HEADER + |Flat(a)|, Raw(x));
    assert w == Block(|zl|, TailOf(es), count, Flat(es) + end);
    GapTail(zl, es);
    BlockRead(|zl|, TailOf(es), count, Flat(es) + end);
    BlockWrite(|zl|, TailOf(es), count, Flat(es) + end, count + 1);
    if count < UINT16_MAX {
      RepIs(Write(w, 8, LE(count + 1, 2)), count + 1, es);
    } else {
      RepIs(w, count, es);
    }
  }

  lemma GapTail(zl: seq<Byte>, es: seq<Entry>)
    requires |zl| == HEADER + |Flat(es)| + 1 && |zl| <= UINT32_MAX
    ensures TailOf(es) <= UINT32_MAX
  {
    hide Flat, LastOffset;
    if es != [] { LastOffsetBound(es); }
  }

  // ----- Inserting -----

  function NewEntry(prevlen: nat, c: Content): Entry
    requires prevlen <= UINT32_MAX && ContentOk(c)
  {
    Item(prevlen >= ZIP_BIG_PREVLEN, prevlen, c)
  }

  /** The bytes of the content, past the type and length. */
  function Payload(c: Content): seq<Byte>
    requires ContentOk(c)
  {
    match c case Str(s) => s case Num(v) => SaveInteger(v, EncodingOf(v))
  }

  /** zipStoreEntryEncoding. */
  function StoreEncoding(c: Content): seq<Byte>
    requires ContentOk(c)
  {
    match c case Str(s) => StoreLength(|s|) case Num(v) => [EncodingOf(v)]
  }

  lemma NewRaw(prevlen: nat, c: Content)
    requires prevlen <= UINT32_MAX && ContentOk(c)
    ensures Raw(NewEntry(prevlen, c)) == StorePrev(prevlen) + StoreEncoding(c) + Payload(c)
    ensures |StorePrev(prevlen)| == PrevSize(prevlen)
    ensures Size(NewEntry(prevlen, c)) == |StorePrev(prevlen)| + |StoreEncoding(c)| + |Payload(c)|
    ensures NewEntry(prevlen, c).prev == prevlen && NewEntry(prevlen, c).content == c
  {
    hide SaveInteger, StoreLength, EncodingOf;
  }

  /** What insertion adds up for the content of a new entry. */
  lemma EncodedSize(s: seq<Byte>)
    requires |s| <= UINT32_MAX
    ensures var c := Encoded(s);
            && ContentOk(c) && TextOf(c) == s && |StoreEncoding(c)| + |Payload(c)| <= |s| + 9
            && (c.Str? ==> |Payload(c)| == |s| && |StoreEncoding(c)| == LengthSize(|s|))
            && (c.Num? ==> |Payload(c)| == IntSize(EncodingOf(c.v)) && |StoreEncoding(c)| == 1)
  {
    EncodedText(s);
    hide Encoded, SaveInteger, EncodingOf, IntSize, TextOf;
    if Encoded(s).Num? { IntegerRoundTrip(Encoded(s).v); }
  }

  lemma WriteThree(zl: seq<Byte>, p: nat, a: seq<Byte>, b: seq<Byte>, c: seq<Byte>)
    requires p + |a| + |b| + |c| <= |zl|
    ensures Write(Write(Write(zl, p, a), p + |a|, b), p + |a| + |b|, c) == Write(zl, p, a + b + c)
  {
    var x := Write(zl, p, a);
    var y := Write(x, p + |a|, b);
    assert y[..p + |a| + |b|] == zl[..p] + a + b && y[p + |a| + |b|..] == zl[p + |a| + |b|..];
  }

  /** Write the new entry and count it. */
  method Fill(zl0: seq<Byte>, p0: nat, prevlen: nat, c: Content, ghost count: nat, ghost a: seq<Entry>,
              ghost j: seq<Byte>, ghost b: seq<Entry>)
    returns (zl: seq<Byte>)
    requires prevlen <= UINT32_MAX && ContentOk(c) && p0 == HEADER + |Flat(a)|
    requires Gap(zl0, count, a, j, NewEntry(prevlen, c), b) && Chained(0, a + [NewEntry(prevlen, c)] + b)
    requires CountOk(count, |a| + |b|)
    ensures Rep(zl, a + [NewEntry(prevlen, c)] + b) && Count(zl) == Recount(count, 1)
  {
    hide *;
    ghost var x := NewEntry(prevlen, c);
    Filled(zl0, count, a, j, x, b);
    NewRaw(prevlen, c);
    WriteThree(zl0, p0, StorePrev(prevlen), StoreEncoding(c), Payload(c));
    HeaderIs();
    zl := zl0;
    var p := p0;
    zl := Write(zl, p, StorePrev(prevlen));
    p := p + |StorePrev(prevlen)|;
    zl := Write(zl, p, StoreEncoding(c));
    p := p + |StoreEncoding(c)|;
    zl := Write(zl, p, Payload(c));
    CountBound(count, |a| + |b|);
    RecountIs(count, 1);
    if Count(zl) < UINT16_MAX { zl := Write(zl, 8, LE(Count(zl) + 1, 2)); }
  }

  lemma LastSizeIs(es: seq<Entry>, i: nat)
    requires i <= |es|
    ensures LastSize(0, es[..i]) == if i == 0 then 0 else Size(es[i - 1])
  {
    hide Size;
  }

  /** The size of the entry before the place of insertion. */
  method PrevLenAt(zl: seq<Byte>, p: nat, ghost es: seq<Entry>, ghost i: nat) returns (prevlen: nat)
    requires Rep(zl, es) && i <= |es| && p == OffsetOf(es, i)
    ensures prevlen == LastSize(0, es[..i]) && prevlen < |zl|
  {
    hide *;
    EndAt(zl, es);
    TailAt(zl, es);
    LastSizeIs(es, i);
    if i < |es| { ReadAt(zl, es, i); }
    if i > 0 { ReadAt(zl, es, i - 1); }
    prevlen := 0;
    if zl[p] != ZIP_END {
      prevlen := PrevLen(zl, p);
    } else {
      var ptail := Tail(zl);
      if zl[ptail] != ZIP_END { prevlen := RawEntryLength(zl, ptail); }
    }
  }

  /** Appending, first part: the new entry goes where the end byte is. */
  method Extend(zl0: seq<Byte>, p: nat, reqlen: nat, ghost es: seq<Entry>, ghost x: Entry)
    returns (zl: seq<Byte>, ghost j: seq<Byte>)
    requires Rep(zl0, es) && p == OffsetOf(es, |es|) && reqlen == Size(x) && |zl0| + reqlen <= UINT32_MAX
    ensures Gap(zl, Count(zl0), es, j, x, [])
  {
    hide *;
    RepFacts(zl0, es);
    EndAt(zl0, es);
    HeaderIs();
    ghost var junk;
    zl, junk := Resize(zl0, |zl0| + reqlen);
    EndGap(zl0, junk, es, x);
    j := ([ZIP_END] + junk)[..Size(x)];
    zl := Write(zl, 4, LE(p, 4));
  }

  /** A wide link stays wide when the moves around it would otherwise leave less than the block has. */
  predicate Forced(e: Entry, reqlen: nat) { |Link(e)| == 5 && reqlen < 4 }

  /** Making room before entry `i`, with the cascade that may follow. */
  method MakeRoom(zl0: seq<Byte>, p: nat, reqlen: nat, ghost es: seq<Entry>, ghost i: nat, ghost x: Entry)
    returns (zl: seq<Byte>, ghost j: seq<Byte>, ghost force: bool)
    requires Rep(zl0, es) && i < |es| && p == OffsetOf(es, i) && reqlen == Size(x)
    requires |zl0| + reqlen + 4 * |es| + 8 <= UINT32_MAX
    ensures reqlen <= UINT32_MAX && Room([Fitted(es[i], reqlen, force)] + es[i + 1..])
    ensures force == Forced(es[i], reqlen)
    ensures Gap(zl, Count(zl0), es[..i], j, x, Fixed([Fitted(es[i], reqlen, force)] + es[i + 1..]))
  {
    hide *;
    RepFacts(zl0, es);
    ReadAt(zl0, es, i);
    OffsetIs(es, i);
    var forcelarge := false;
    var nextdiff := PrevSize(reqlen) - PrevLenSize(zl0, p);
    LinkChange(es[i], reqlen);
    ForcedIs(es[i], reqlen);
    if nextdiff == -4 && reqlen < 4 {
      nextdiff := 0;
      forcelarge := true;
    }
    FittedIs(es[i], reqlen, forcelarge);
    FittedLinkIs(reqlen, forcelarge);
    ghost var bs := [Fitted(es[i], reqlen, forcelarge)] + es[i + 1..];
    force := forcelarge;
    zl, j := Open(zl0, p, reqlen, nextdiff, forcelarge, es, i);
    ghost var a := Flat(es[..i]) + j;
    RoomIs(zl, Count(zl0), a, bs);
    if nextdiff != 0 {
      zl := CascadeUpdate(zl, p + reqlen, Count(zl0), a, bs);
    } else {
      NoCascade(es, i, Fitted(es[i], reqlen, forcelarge));
    }
    EndsGap(zl, Count(zl0), es[..i], j, x, Fixed(bs));
  }

  lemma ForcedIs(e: Entry, reqlen: nat)
    ensures Forced(e, reqlen) <==> PrevSize(reqlen) - |Link(e)| == -4 && reqlen < 4
  {
    LinkChange(e, reqlen);
  }

  lemma LinkChange(e: Entry, len: nat)
    ensures |Link(e)| in {1, 5} && PrevSize(len) in {1, 5} && |StorePrev(len)| == PrevSize(len)
    ensures |StoreLarge(len)| == 5
    ensures PrevSize(len) - |Link(e)| == -4 ==> PrevSize(len) == 1 && |Link(e)| == 5
  {
    hide LE;
  }

  /** The entries `fs` are those of `es` and before entry `i` the text `s`, as an integer if it
      spells one, with links that are as wide as they were or have to be. */
  ghost predicate Inserts(es: seq<Entry>, i: nat, s: seq<Byte>, fs: seq<Entry>)
    requires i <= |es|
  {
    var prevlen := LastSize(0, es[..i]);
    && prevlen <= UINT32_MAX && ContentOk(Encoded(s))
    && var x := NewEntry(prevlen, Encoded(s));
       var force := i < |es| && Forced(es[i], Size(x));
       && Size(x) <= UINT32_MAX && (i < |es| ==> Room([Fitted(es[i], Size(x), force)] + es[i + 1..]))
       && fs == InsertedAt(es, i, x, force)
  }

  /** __ziplistInsert: a new entry before entry `i`, or at the end for i == |es|. */
  method Insert(zl0: seq<Byte>, p: nat, s: seq<Byte>, ghost es: seq<Entry>, ghost i: nat)
    returns (zl: seq<Byte>, ghost fs: seq<Entry>)
    requires Rep(zl0, es) && i <= |es| && p == OffsetOf(es, i) && |zl0| + |s| + 4 * |es| + 32 <= UINT32_MAX
    ensures Rep(zl, fs) && Texts(fs) == With(Texts(es), i, s)
    ensures Stores(zl, With(Texts(es), i, s)) && Inserts(es, i, s, fs) && Count(zl) == Recount(Count(zl0), 1)
  {
    hide *;
    RepFacts(zl0, es);
    EndAt(zl0, es);
    OffsetIs(es, i);
    if i < |es| { ReadAt(zl0, es, i); }
    var prevlen := PrevLenAt(zl0, p, es, i);
    var value, encoding := TryEncoding(s);
    EncodedSize(s);
    var content := if value.Some? then Num(value.value) else Str(s);
    var reqlen := if value.Some? then IntSize(encoding) else |s|;
    reqlen := reqlen + PrevSize(prevlen);
    reqlen := reqlen + (if value.Some? then 1 else LengthSize(|s|));
    NewRaw(prevlen, content);
    LinkChange(NewEntry(prevlen, content), prevlen);
    ghost var x, j, force := NewEntry(prevlen, content), [], false;
    ghost var b: seq<Entry> := [];
    if zl0[p] != ZIP_END {
      zl, j, force := MakeRoom(zl0, p, reqlen, es, i, x);
      b := Fixed([Fitted(es[i], reqlen, force)] + es[i + 1..]);
    } else {
      assert es[..i] == es;
      zl, j := Extend(zl0, p, reqlen, es, x);
    }
    fs := InsertedAt(es, i, x, force);
    InsertsIs(es, i, s, fs, prevlen, x, force);
    InsertedIs(es, i, x, force);
    InsertedChain(es, i, x, force);
    InsertedTexts(es, i, x, force);
    zl := Fill(zl, p, prevlen, content, Count(zl0), es[..i], j, b);
    StoresTexts(zl, fs);
  }

  lemma InsertsIs(es: seq<Entry>, i: nat, s: seq<Byte>, fs: seq<Entry>, prevlen: nat, x: Entry, force: bool)
    requires i <= |es| && prevlen == LastSize(0, es[..i]) && prevlen <= UINT32_MAX && ContentOk(Encoded(s))
    requires x == NewEntry(prevlen, Encoded(s)) && Size(x) <= UINT32_MAX
    requires force == (i < |es| && Forced(es[i], Size(x)))
    requires i < |es| ==> Room([Fitted(es[i], Size(x), force)] + es[i + 1..])
    requires fs == InsertedAt(es, i, x, force)
    ensures Inserts(es, i, s, fs)
  {
    hide LastSize, ContentOk, Encoded, NewEntry, Size, Forced, Room, Fitted, InsertedAt;
  }

  /** An insertion leaves the entries before it as they are, and the encoding of those behind. */
  lemma InsertsContents(es: seq<Entry>, i: nat, s: seq<Byte>, fs: seq<Entry>)
    requires i <= |es| && Inserts(es, i, s, fs)
    ensures |fs| == |es| + 1 && fs[..i] == es[..i] && fs[i].content == Encoded(s)
    ensures forall j :: i <= j < |es| ==> fs[j + 1].content == es[j].content
  {
    hide Encoded, LastSize, Size, Room, ContentOk, Forced, InsertedAt, Fitted;
    var x := NewEntry(LastSize(0, es[..i]), Encoded(s));
    var force := i < |es| && Forced(es[i], Size(x));
    InsertedContents(es, i, x, force);
  }

  lemma InsertedContents(es: seq<Entry>, i: nat, x: Entry, force: bool)
    requires i <= |es| && Size(x) <= UINT32_MAX && (i < |es| ==> Room([Fitted(es[i], Size(x), force)] + es[i + 1..]))
    ensures var fs := InsertedAt(es, i, x, force);
            && |fs| == |es| + 1 && fs[..i] == es[..i] && fs[i] == x
            && forall j :: i <= j < |es| ==> fs[j + 1].content == es[j].content
  {
    hide *;
    InsertedIs(es, i, x, force);
    var fs := InsertedAt(es, i, x, force);
    if i < |es| {
      var bs := [Fitted(es[i], Size(x), force)] + es[i + 1..];
      FittedIs(es[i], Size(x), force);
      FixedContents(bs);
      forall j | i <= j < |es| ensures fs[j + 1].content == es[j].content {
        assert fs[j + 1] == Fixed(bs)[j - i];
        assert Fixed(bs)[j - i].content == bs[j - i].content;
      }
    }
  }

  lemma PushIsInsert(ts: seq<Octets>, s: Octets)
    ensures ZlPush(ts, s, true) == With(ts, 0, s) && ZlPush(ts, s, false) == With(ts, |ts|, s)
  {}

  /** ziplistPush at the head or the tail. */
  method Push(zl0: seq<Byte>, s: seq<Byte>, head: bool, ghost es: seq<Entry>)
    returns (zl: seq<Byte>, ghost fs: seq<Entry>)
    requires Rep(zl0, es) && |zl0| + |s| + 4 * |es| + 32 <= UINT32_MAX
    ensures Rep(zl, fs) && Texts(fs) == ZlPush(Texts(es), s, head)
    ensures Stores(zl, ZlPush(Texts(es), s, head)) && Inserts(es, if head then 0 else |es|, s, fs)
    ensures Count(zl) == Recount(Count(zl0), 1)
  {
    hide *;
    RepFacts(zl0, es);
    EndAt(zl0, es);
    FirstOffset(es);
    var p := if head then HEADER else Total(zl0) - 1;
    zl, fs := Insert(zl0, p, s, es, if head then 0 else |es|);
    PushIsInsert(Texts(es), s);
  }
}
