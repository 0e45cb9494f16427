/** Merging two ziplists into the block of the longer one. */
module ZipMerge {
  import opened Bytes
  import opened Endian
  import opened Memory
  import opened ZipCascade
  import opened ZipDelete
  import opened ZipEntry
  import opened ZipInsert
  import opened ZipLayout
  import opened Ziplist

  // ----- Bytes -----

  /** Copying the second list's entries over the first one's end byte. */
  lemma AppendedBytes(f: seq<Byte>, s: seq<Byte>, junk: seq<Byte>)
    requires f != [] && |s| > HEADER && |junk| == |s| - HEADER - 1
    ensures Write(f + junk, |f| - 1, s[HEADER..]) == f[..|f| - 1] + s[HEADER..]
  {}

  /** Moving the second list's entries up and copying the first list before them. */
  lemma PrependedBytes(f: seq<Byte>, s: seq<Byte>, junk: seq<Byte>)
    requires |f| > HEADER && |s| > HEADER && |junk| == |f| - HEADER - 1
    ensures Write(MemMove(s + junk, |f| - 1, HEADER, |s| - HEADER), 0, f[..|f| - 1]) == f[..|f| - 1] + s[HEADER..]
  {
    var m := MemMove(s + junk, |f| - 1, HEADER, |s| - HEADER);
    assert (s + junk)[HEADER..|s|] == s[HEADER..];
    assert m[|f| - 1..] == s[HEADER..];
  }

  /** The two lists in one block, with the header fields the merge writes. */
  lemma Joined(f: seq<Byte>, s: seq<Byte>, es: seq<Entry>, fs: seq<Entry>, n: nat, count: nat)
    requires Rep(f, es) && Rep(s, fs) && n == |f| + |s| - HEADER - 1 <= UINT32_MAX && count <= UINT16_MAX
    ensures |f| > HEADER && |s| > HEADER && HEADER == 10
    ensures var tail := |f| - 1 + (Tail(s) - HEADER);
            var z := Write(Write(f[..|f| - 1] + s[HEADER..], 0, LE(n, 4)), 8, LE(count, 2));
            && 0 <= tail && |z| == n && Fields(n, tail, count)
            && Write(z, 4, LE(tail, 4)) == Block(n, tail, count, Flat(es) + (Flat(fs) + [ZIP_END]))
            && (fs != [] ==> Ends(Write(z, 4, LE(tail, 4)), count, Flat(es), fs))
  {
    hide *;
    HeaderIs();
    RepFacts(f, es);
    RepFacts(s, fs);
    TailAt(s, fs);
    CountBound(Count(f), |es|);
    var tail := |f| - 1 + (Tail(s) - HEADER);
    FieldsAre(n, tail, count);
    if fs != [] { TailIs(fs); } else { NoTail(); }
    JoinedBytes(f, s, TailOf(es), Count(f), Flat(es), TailOf(fs), Count(s), Flat(fs) + [ZIP_END], n, count, tail);
    if fs != [] {
      var z := Write(Write(f[..|f| - 1] + s[HEADER..], 0, LE(n, 4)), 8, LE(count, 2));
      EndsIs(Write(z, 4, LE(tail, 4)), tail, count, Flat(es), fs);
    }
  }

  lemma FieldsAre(n: nat, tail: nat, count: nat)
    ensures Fields(n, tail, count) <==> n <= UINT32_MAX && tail <= UINT32_MAX && count <= UINT16_MAX
  {}

  lemma NoTail()
    ensures TailOf([]) == HEADER && Chained(0, [])
  {}

  lemma JoinedBytes(f: seq<Byte>, s: seq<Byte>, tf: nat, cf: nat, a: seq<Byte>, ts: nat, cs: nat, b: seq<Byte>, n: nat,
                    count: nat, tail: nat)
    requires f == Block(|f|, tf, cf, a + [ZIP_END]) && s == Block(|s|, ts, cs, b) && n == |f| + |s| - HEADER - 1
    ensures HEADER == 10 && |f| > HEADER && |s| >= HEADER && |f[..|f| - 1] + s[HEADER..]| == n >= HEADER
    ensures Write(Write(Write(f[..|f| - 1] + s[HEADER..], 0, LE(n, 4)), 8, LE(count, 2)), 4, LE(tail, 4))
            == Block(n, tail, count, a + b)
  {
    hide LE, Write;
    BlockSplit(|f|, tf, cf, a, [ZIP_END]);
    assert f[..|f| - 1] == Block(|f|, tf, cf, a);
    BlockRest(|s|, ts, cs, b);
    BlockSplit(|f|, tf, cf, a, b);
    hide Block;
    BlockWrite(|f|, tf, cf, a + b, n);
    BlockWrite(n, tf, cf, a + b, count);
    BlockWrite(n, tf, count, a + b, tail);
  }

  lemma BlockRest(total: nat, tail: nat, count: nat, rest: seq<Byte>)
    ensures Block(total, tail, count, rest)[HEADER..] == rest
  {
    hide LE;
  }

  // ----- Entries -----

  /** The last entry of the first list begins what the cascade looks at. */
  lemma SeamEnds(zl: seq<Byte>, count: nat, es: seq<Entry>, fs: seq<Entry>)
    requires Ends(zl, count, Flat(es), fs) && es != []
    ensures Ends(zl, count, Flat(es[..|es| - 1]), es[|es| - 1..] + fs)
  {
    hide *;
    var a, l := es[..|es| - 1], es[|es| - 1..];
    assert es == a + l;
    FlatAppend(a, l);
    EndsJoin(zl, count, Flat(a), l, fs);
  }

  lemma SeamChain(es: seq<Entry>, fs: seq<Entry>)
    requires Chained(0, es) && Chained(0, fs) && es != [] && fs != [] && Room(es[|es| - 1..] + fs)
    ensures Chained(0, es[..|es| - 1] + Fixed(es[|es| - 1..] + fs))
  {
    hide *;
    var n := |es| - 1;
    var bs := es[n..] + fs;
    SeamAt(es, fs, n);
    ChainSplit(es, n);
    ChainSplit(fs, 0);
    LinkAt(0, es, n);
    LastSizeIs(es, n);
    FixedChain(bs);
    ChainedAppend(0, es[..n], Fixed(bs));
  }

  lemma SeamAt(es: seq<Entry>, fs: seq<Entry>, n: nat)
    requires n + 1 == |es| && fs != []
    ensures var bs := es[n..] + fs;
            |bs| == |fs| + 1 && bs[0] == es[n] && bs[1] == fs[0] && bs[1..] == fs && bs[2..] == fs[1..]
  {}

  lemma SeamTexts(es: seq<Entry>, fs: seq<Entry>)
    requires es != [] && Room(es[|es| - 1..] + fs)
    ensures Texts(es[..|es| - 1] + Fixed(es[|es| - 1..] + fs)) == Texts(es) + Texts(fs)
  {
    hide *;
    var a, l := es[..|es| - 1], es[|es| - 1..];
    assert es + fs == a + (l + fs);
    TextsJoin(es, fs);
    TextsJoin(a, l + fs);
    TextsJoin(a, Fixed(l + fs));
    FixedContents(l + fs);
    SameTexts(l + fs, Fixed(l + fs));
  }

  /** The entries before the one the cascade starts at, and those from it on. */
  function SeamBefore(es: seq<Entry>): seq<Entry> { if es == [] then [] else es[..|es| - 1] }

  function SeamAfter(es: seq<Entry>, fs: seq<Entry>): seq<Entry> { if es == [] then fs else es[|es| - 1..] + fs }

  lemma Seam(zl: seq<Byte>, count: nat, es: seq<Entry>, fs: seq<Entry>)
    requires Ends(zl, count, Flat(es), fs) && Chained(0, es) && Chained(0, fs) && fs != []
    ensures Ends(zl, count, Flat(SeamBefore(es)), SeamAfter(es, fs))
    ensures |SeamBefore(es)| + |SeamAfter(es, fs)| == |es| + |fs|
    ensures SeamAfter(es, fs) != []
    ensures Room(SeamAfter(es, fs)) ==>
      var gs := SeamBefore(es) + Fixed(SeamAfter(es, fs));
      Chained(0, gs) && Texts(gs) == Texts(es) + Texts(fs)
  {
    hide *;
    SeamParts(es, fs);
    if es == [] {
      if Room(fs) {
        assert [fs[0]] + fs[1..] == fs;
        ChainSplit(fs, 0);
        NoCascade(fs, 0, fs[0]);
        TextsJoin([], fs);
        assert [] + fs == fs;
      }
    } else {
      SeamEnds(zl, count, es, fs);
      if Room(SeamAfter(es, fs)) {
        SeamChain(es, fs);
        SeamTexts(es, fs);
      }
    }
  }

  lemma SeamParts(es: seq<Entry>, fs: seq<Entry>)
    ensures es == [] ==> SeamBefore(es) == es && SeamAfter(es, fs) == fs
    ensures es != [] ==> SeamBefore(es) == es[..|es| - 1] && SeamAfter(es, fs) == es[|es| - 1..] + fs
  {}

  /** Copy both lists into the block of the longer one. */
  method Join(first: seq<Byte>, second: seq<Byte>, zlbytes: nat, ghost es: seq<Entry>, ghost fs: seq<Entry>)
    returns (target: seq<Byte>, append: bool)
    requires Rep(first, es) && Rep(second, fs) && zlbytes == |first| + |second| - HEADER - 1
    ensures |first| > HEADER && |second| > HEADER && target == first[..|first| - 1] + second[HEADER..]
    ensures append <==> Count(first) >= Count(second)
  {
    hide *;
    RepFacts(first, es);
    RepFacts(second, fs);
    if Count(first) >= Count(second) {
      var memory := new Byte[zlbytes - |first|];
      AppendedBytes(first, second, memory[..]);
      target := Write(first + memory[..], |first| - 1, second[HEADER..]);
      append := true;
    } else {
      var memory := new Byte[zlbytes - |second|];
      PrependedBytes(first, second, memory[..]);
      target := MemMove(second + memory[..], |first| - 1, HEADER, |second| - HEADER);
      target := Write(target, 0, first[..|first| - 1]);
      append := false;
    }
  }

  lemma MergedCount(c: nat, d: nat, n: nat, m: nat)
    requires CountOk(c, n) && CountOk(d, m)
    ensures CountOk(if c + d < UINT16_MAX then c + d else UINT16_MAX, n + m)
  {}

  /** The tail offset a merge writes, that of the second list moved behind the first, is the
      offset of the last entry unless only the second list is empty. */
  lemma MergedTail(f: seq<Byte>, s: seq<Byte>, es: seq<Entry>, fs: seq<Entry>)
    requires Rep(f, es) && Rep(s, fs)
    ensures |f| > HEADER && |s| > HEADER
    ensures |f| - 1 + (Tail(s) - HEADER) == TailOf(es + fs) <==> fs != [] || es == []
  {
    RepFacts(f, es);
    RepFacts(s, fs);
    hide Flat, Rep, LastOffset, Size;
    if fs != [] {
      LastOffsetJoin(es, fs);
    } else if es != [] {
      LastEntry(es);
      assert es + fs == es;
    } else {
      assert es + fs == [];
      FlatEmpty();
    }
  }

  lemma LastEntry(es: seq<Entry>)
    requires es != []
    ensures LastOffset(es) < |Flat(es)|
  {
    var n := |es| - 1;
    assert es == es[..n] + [es[n]];
    FlatAppend(es[..n], [es[n]]);
    FlatOne(es[n]);
  }

  /** A block of these entries with any other tail offset is no ziplist. */
  lemma NoTexts(zl: seq<Byte>, tail: nat, count: nat, es: seq<Entry>)
    requires Fields(|zl|, tail, count) && zl == Block(|zl|, tail, count, Flat(es) + [ZIP_END]) && tail != TailOf(es)
    ensures forall ts :: !Stores(zl, ts)
  {
    hide Block, Flat, TailOf, LE, Rep, Texts;
    forall gs ensures !Rep(zl, gs) {
      if Rep(zl, gs) {
        BlockRead(|zl|, tail, count, Flat(es) + [ZIP_END]);
        RepFacts(zl, gs);
        SuffixOf(zl, HEADER, es);
        SuffixUnique(zl, HEADER, es, gs);
      }
    }
  }

  /** Nothing behind the first list's last entry: the cascade leaves the block as it is. */
  lemma MergedWithNone(z: seq<Byte>, tail: nat, count: nat, es: seq<Entry>)
    requires Fields(|z|, tail, count) && z == Block(|z|, tail, count, Flat(es) + (Flat([]) + [ZIP_END]))
    requires CountOk(count, |es|)
    ensures |SeamAfter(es, [])| <= 1 && Suffix(z, OffsetOf(es, if es == [] then 0 else |es| - 1), SeamAfter(es, []))
    ensures es == [] && tail == HEADER ==> Rep(z, []) && Count(z) == count
    ensures tail != TailOf(es) ==> forall ts :: !Stores(z, ts)
  {
    FlatEmpty();
    hide *;
    HeaderIs();
    assert Flat(es) + ([] + [ZIP_END]) == Flat(es) + [ZIP_END];
    SeamParts(es, []);
    BlockRead(|z|, tail, count, Flat(es) + [ZIP_END]);
    SuffixOf(z, HEADER, es);
    var i := if es == [] then 0 else |es| - 1;
    SuffixAt(z, es, i);
    assert es[i..] == SeamAfter(es, []);
    if es == [] && tail == HEADER {
      NoTail();
      FieldsAre(|z|, tail, count);
      RepIs(z, count, es);
    }
    if tail != TailOf(es) { NoTexts(z, tail, count, es); }
  }

  /** ziplistMerge of two different blocks. The result stores both lists' texts unless only the
      second list is empty; then its tail offset is wrong, and it is no ziplist. */
  method Merge(first: seq<Byte>, second: seq<Byte>, ghost es: seq<Entry>, ghost fs: seq<Entry>)
    returns (target: seq<Byte>, append: bool, ghost gs: seq<Entry>)
    requires Rep(first, es) && Rep(second, fs)
    requires |first| + |second| + 4 * (|es| + |fs|) <= UINT32_MAX
    ensures fs != [] || es == [] ==> Rep(target, gs) && Texts(gs) == Texts(es) + Texts(fs)
    ensures fs != [] ==> Room(SeamAfter(es, fs)) && gs == SeamBefore(es) + Fixed(SeamAfter(es, fs))
    ensures Stores(target, Texts(es) + Texts(fs)) <==> fs != [] || es == []
    ensures fs != [] || es == [] ==>
      var n := Count(first) + Count(second); Count(target) == if n < UINT16_MAX then n else UINT16_MAX
    ensures fs == [] && es != [] ==> forall ts :: !Stores(target, ts)
  {
    hide *;
    RepFacts(first, es);
    RepFacts(second, fs);
    TailAt(first, es);
    var zlbytes := |first| + |second| - HEADER - 1;
    var zllength := Count(first) + Count(second);
    zllength := if zllength < UINT16_MAX then zllength else UINT16_MAX;
    MergedCount(Count(first), Count(second), |es|, |fs|);
    CountBound(zllength, |es| + |fs|);
    var first_offset, second_offset := Tail(first), Tail(second);
    target, append := Join(first, second, zlbytes, es, fs);
    Joined(first, second, es, fs, zlbytes, zllength);
    target := Write(target, 0, LE(zlbytes, 4));
    target := Write(target, 8, LE(zllength, 2));
    target := Write(target, 4, LE(|first| - 1 + (second_offset - HEADER), 4));
    ghost var a, bs := SeamBefore(es), SeamAfter(es, fs);
    SeamParts(es, fs);
    SeamOffset(es);
    if fs != [] {
      Seam(target, zllength, es, fs);
      RoomIs(target, zllength, Flat(a), bs);
    } else {
      NoneJoined(es, fs);
      NoTail();
      MergedTail(first, second, es, fs);
      MergedWithNone(target, |first| - 1 + (second_offset - HEADER), zllength, es);
    }
    target := CascadeUpdate(target, first_offset, zllength, Flat(a), bs);
    gs := [];
    if fs != [] {
      gs := a + Fixed(bs);
      EndsRep(target, zllength, a, Fixed(bs));
    }
    if fs != [] || es == [] {
      NoneJoined(es, fs);
      StoresTexts(target, gs);
    }
  }

  lemma NoneJoined(es: seq<Entry>, fs: seq<Entry>)
    ensures es == [] && fs == [] ==> Texts([]) == Texts(es) + Texts(fs)
    ensures fs == [] ==> es + fs == es
  {}

  /** The block of the one-letter string "a", and what comes of merging it with an empty list. */
  lemma ExampleBlock() returns (zl: seq<Byte>, es: seq<Entry>)
    ensures zl == [14, 0, 0, 0, 10, 0, 0, 0, 1, 0, 0, 1, 97, 255] && |es| == 1 && Rep(zl, es) && UINT32_MAX > 1000
  {
    zl := [14, 0, 0, 0, 10, 0, 0, 0, 1, 0, 0, 1, 97, 255];
    var e: Entry := Item(false, 0, Str([97]));
    es := [e];
    assert Raw(e) == [0, 1, 97];
    FlatOne(e);
    SmallLE(14);
    SmallLE(10);
    assert LE(1, 2) == [1] + LE(0, 1) && LE(0, 1) == [0] + LE(0, 0);
    LastOfOne(e);
    assert Chained(0, [e]);
    hide LE, Flat, LastOffset, Raw;
    assert zl == Block(14, 10, 1, [0, 1, 97] + [ZIP_END]);
    RepIs(zl, 1, [e]);
  }

  lemma SmallLE(v: nat)
    requires v < 256
    ensures LE(v, 4) == [v, 0, 0, 0]
  {
    assert LE(v, 4) == [v] + LE(0, 3) && LE(0, 3) == [0] + LE(0, 2) && LE(0, 2) == [0] + LE(0, 1)
        && LE(0, 1) == [0] + LE(0, 0);
  }

  lemma LastOfOne(e: Entry)
    ensures TailOf([e]) == HEADER
  {}

  /** That list merged with an empty one. */
  method MergeWithEmpty() returns (target: seq<Byte>)
    ensures forall ts :: !Stores(target, ts)
  {
    hide *;
    var first: seq<Byte> := [14, 0, 0, 0, 10, 0, 0, 0, 1, 0, 0, 1, 97, 255];
    ghost var _, es := ExampleBlock();
    var second := New();
    RepFacts(second, []);
    FlatEmpty();
    HeaderIs();
    var append;
    ghost var gs;
    target, append, gs := Merge(first, second, es, []);
  }

  lemma SeamOffset(es: seq<Entry>)
    ensures OffsetOf(es, if es == [] then 0 else |es| - 1) == HEADER + |Flat(SeamBefore(es))|
  {
    hide Flat;
  }
}
