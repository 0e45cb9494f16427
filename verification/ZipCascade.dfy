/** The cascade of ziplist.c: when an entry has changed size, the back-links behind it are
    rewritten, each growing at most once, until one keeps its size. */
module ZipCascade {
  import opened Bytes
  import opened Endian
  import opened Memory
  import opened ZipEntry
  import opened ZipLayout

  /** ziplistResize. What the memory added held before is arbitrary; `junk` ends with the new
      end byte. */
  method Resize(zl: seq<Byte>, len: nat) returns (r: seq<Byte>, ghost junk: seq<Byte>)
    requires |zl| > HEADER && len > HEADER
    ensures len > |zl| || (len == |zl| && zl[len - 1] == ZIP_END) ==>
      |junk| == len - |zl| && (junk != [] ==> junk[|junk| - 1] == ZIP_END) && r == Write(zl + junk, 0, LE(len, 4))
    ensures len <= |zl| ==> r == Write(zl[..len - 1] + [ZIP_END], 0, LE(len, 4))
  {
    hide LE;
    var memory := new Byte[len];
    r := if len <= |zl| then zl[..len] else zl + memory[|zl|..];
    junk := [];
    if len > |zl| { junk := memory[|zl|..len - 1] + [ZIP_END]; }
    r := Write(r, 0, LE(len, 4));
    r := r[len - 1 := ZIP_END];
    assert len > |zl| ==> zl + memory[|zl|..len - 1] + [ZIP_END] == zl + junk;
    assert len == |zl| && zl[len - 1] == ZIP_END ==> zl[..len - 1] + [ZIP_END] == zl + junk;
  }

  /** The entry with its back-link set to `len`: the link grows if it has to and never
      shrinks. */
  function Relinked(e: Entry, len: nat): Entry
    requires len <= UINT32_MAX
  {
    Item(e.wide || len >= ZIP_BIG_PREVLEN, len, e.content)
  }

  /** The total size of the entries leaves room for every link to grow. */
  predicate Room(es: seq<Entry>) { |Flat(es)| + 4 * |es| <= UINT32_MAX }

  lemma RoomTail(es: seq<Entry>)
    requires es != [] && Room(es)
    ensures Size(es[0]) + 4 <= UINT32_MAX && Room(es[1..]) && |Flat(es)| == Size(es[0]) + |Flat(es[1..])|
  {
    hide Raw, Size;
  }

  /** What the cascade makes of the entries behind one of size `len`. */
  function Fix(len: nat, es: seq<Entry>): (fs: seq<Entry>)
    requires len <= UINT32_MAX && Room(es)
    ensures |fs| == |es|
    decreases |es|
  {
    if es == [] || es[0].prev == len then es
    else
      RoomTail(es);
      var e := Relinked(es[0], len);
      if e.wide == es[0].wide then [e] + es[1..] else [e] + Fix(Size(e), es[1..])
  }

  /** The first entry is what its neighbours have to fit. */
  function Fixed(es: seq<Entry>): (fs: seq<Entry>)
    requires es != [] && Room(es)
    ensures |fs| == |es|
  {
    RoomTail(es);
    [es[0]] + Fix(Size(es[0]), es[1..])
  }

  /** The back-links agree from the third entry on; the second's may be out of date. */
  predicate Stale(es: seq<Entry>) { es == [] || es[1..] == [] || Chained(Size(es[1]), es[2..]) }

  /** One round of the cascade. */
  function StepOf(es: seq<Entry>): (fs: seq<Entry>)
    requires es != [] && Size(es[0]) <= UINT32_MAX
    ensures |fs| == |es| && fs[0] == es[0]
  {
    if |es| == 1 || es[1].prev == Size(es[0]) then es else [es[0]] + [Relinked(es[1], Size(es[0]))] + es[2..]
  }

  predicate Grows(es: seq<Entry>)
    requires es != []
  {
    |es| > 1 && es[1].prev != Size(es[0]) && !es[1].wide && Size(es[0]) >= ZIP_BIG_PREVLEN
  }

  // ----- What the cascade achieves -----

  lemma {:induction false} FixChained(len: nat, es: seq<Entry>)
    requires len <= UINT32_MAX && Room(es) && (es == [] || Chained(Size(es[0]), es[1..]))
    ensures Chained(len, Fix(len, es))
    decreases |es|
  {
    hide Size, Raw;
    if es != [] && es[0].prev != len {
      RoomTail(es);
      var e := Relinked(es[0], len);
      var fs := Fix(len, es);
      if e.wide == es[0].wide {
        assert fs[1..] == es[1..];
        SameSize(es[0], e);
      } else {
        FixChained(Size(e), es[1..]);
        assert fs[1..] == Fix(Size(e), es[1..]);
      }
    }
  }

  lemma SameSize(e: Entry, f: Entry)
    requires e.content == f.content
    ensures Size(f) == Size(e) + (if f.wide then 4 else 0) - (if e.wide then 4 else 0)
  {
    hide Body;
  }

  /** Only links change. */
  lemma {:induction false} FixContents(len: nat, es: seq<Entry>)
    requires len <= UINT32_MAX && Room(es)
    ensures forall i :: 0 <= i < |es| ==> Fix(len, es)[i].content == es[i].content
    decreases |es|
  {
    hide Size, Raw, Flat;
    if es != [] && es[0].prev != len {
      RoomTail(es);
      FixContents(Size(Relinked(es[0], len)), es[1..]);
    }
  }

  /** Every link grows at most once. */
  lemma {:induction false} FixGrowth(len: nat, es: seq<Entry>)
    requires len <= UINT32_MAX && Room(es)
    ensures |Flat(Fix(len, es))| <= |Flat(es)| + 4 * |es|
    decreases |es|
  {
    hide Size, Raw;
    if es != [] && es[0].prev != len {
      RoomTail(es);
      var e := Relinked(es[0], len);
      var fs := Fix(len, es);
      SameSize(es[0], e);
      assert |Raw(e)| == Size(e) && |Raw(es[0])| == Size(es[0]);
      FixGrowth(Size(e), es[1..]);
      assert fs[1..] == if e.wide == es[0].wide then es[1..] else Fix(Size(e), es[1..]);
    }
  }

  /** A round that grows a link leaves the rest of the cascade to the next one. */
  lemma FixedStep(es: seq<Entry>)
    requires es != [] && Room(es)
    ensures Size(es[0]) <= UINT32_MAX
    ensures Grows(es) ==>
            Room(StepOf(es)[1..]) && Fixed(es) == [es[0]] + Fixed(StepOf(es)[1..])
              && (Stale(es) ==> Stale(StepOf(es)[1..]))
    ensures !Grows(es) ==> Fixed(es) == StepOf(es)
  {
    hide Size, Raw;
    RoomTail(es);
    if |es| > 1 && es[1].prev != Size(es[0]) {
      var e := Relinked(es[1], Size(es[0]));
      assert es[1..][1..] == es[2..];
      RoomTail(es[1..]);
      SameSize(es[1], e);
      if Grows(es) {
        var fs := StepOf(es)[1..];
        assert fs[0] == e && fs[1..] == es[2..];
        assert |Raw(e)| == Size(e);
        assert Fix(Size(es[0]), es[1..]) == [e] + Fix(Size(e), es[2..]);
      }
    }
  }

  // ----- The cascade in memory -----

  /** A block that ends in these entries, which hold its last one; `a` are the bytes between
      header and entries. */
  ghost predicate Ends(zl: seq<Byte>, count: nat, a: seq<Byte>, es: seq<Entry>)
  {
    && es != [] && count <= UINT16_MAX && |zl| == HEADER + |a| + |Flat(es)| + 1 && |zl| <= UINT32_MAX
    && zl == Block(|zl|, HEADER + |a| + LastOffset(es), count, a + (Flat(es) + [ZIP_END]))
  }

  lemma EndsFacts(zl: seq<Byte>, count: nat, a: seq<Byte>, es: seq<Entry>)
    requires Ends(zl, count, a, es)
    ensures es != [] && Size(es[0]) <= |Flat(es)| <= UINT32_MAX && |zl| > HEADER && |zl| <= UINT32_MAX
    ensures |zl| == HEADER + |a| + |Flat(es)| + 1
    ensures Suffix(zl, HEADER + |a|, es) && Tail(zl) == HEADER + |a| + LastOffset(es) && Total(zl) == |zl|
    ensures Count(zl) == count
  {
    hide *;
    EndsParts(zl, count, a, es);
    var tail := HEADER + |a| + LastOffset(es);
    BlockRead(|zl|, tail, count, a + (Flat(es) + [ZIP_END]));
    BlockSplit(|zl|, tail, count, a, Flat(es) + [ZIP_END]);
    SuffixIs(zl, Block(|zl|, tail, count, a), es);
    FlatHead(es);
  }

  lemma LastOffsetBound(es: seq<Entry>)
    requires es != []
    ensures LastOffset(es) + Size(es[|es| - 1]) == |Flat(es)|
  {
    hide *;
    LastOffsetIs(es);
    FlatAppend(es[..|es| - 1], [es[|es| - 1]]);
    FlatOne(es[|es| - 1]);
    assert es == es[..|es| - 1] + [es[|es| - 1]];
    assert |Raw(es[|es| - 1])| == Size(es[|es| - 1]);
  }

  lemma LastOffsetIs(es: seq<Entry>)
    requires es != []
    ensures LastOffset(es) == |Flat(es[..|es| - 1])|
  {}

  /** The bytes a growing link moves: `q` up to the link, `x` the old one, `t` what follows it. */
  lemma GrowBytes(q: seq<Byte>, x: Byte, t: seq<Byte>, junk: seq<Byte>, link: seq<Byte>)
    requires |link| == 5 && |junk| == 4 && junk[3] == ZIP_END
    ensures var z := q + ([x] + (t + [ZIP_END])) + junk;
            Write(MemMove(z, |q| + 5, |q| + 1, |t|), |q|, link) == q + (link + (t + [ZIP_END]))
  {
    var z := q + ([x] + (t + [ZIP_END])) + junk;
    assert z[|q| + 1..|q| + 1 + |t|] == t;
    var m := MemMove(z, |q| + 5, |q| + 1, |t|);
    assert z[|q| + 5 + |t|..] == [ZIP_END];
    assert z[..|q|] == q;
    assert m[..|q|] == q && m[|q| + 5..] == t + [ZIP_END];
  }

  /** Writing a link in place of another of the same width. */
  lemma SwapBytes(q: seq<Byte>, old_: seq<Byte>, t: seq<Byte>, link: seq<Byte>)
    requires |link| == |old_|
    ensures Write(q + (old_ + t), |q|, link) == q + (link + t)
  {}

  lemma FlatTwo(es: seq<Entry>)
    requires |es| > 1
    ensures Flat(es) == Raw(es[0]) + (Raw(es[1]) + Flat(es[2..]))
  {
    hide Raw;
    assert es[1..][1..] == es[2..];
  }

  lemma StepFlat(es: seq<Entry>)
    requires |es| > 1 && es[1].prev != Size(es[0]) && Size(es[0]) <= UINT32_MAX
    ensures Flat(StepOf(es)) == Raw(es[0]) + (Raw(Relinked(es[1], Size(es[0]))) + Flat(es[2..]))
  {
    hide Raw, Size;
    var fs := StepOf(es);
    FlatTwo(fs);
    assert fs[1] == Relinked(es[1], Size(es[0])) && fs[2..] == es[2..];
  }

  /** The last entry moves with what is before it. */
  lemma StepTail(es: seq<Entry>)
    requires |es| > 1 && es[1].prev != Size(es[0]) && Size(es[0]) <= UINT32_MAX
    ensures |es| == 2 ==> LastOffset(es) == LastOffset(StepOf(es)) == Size(es[0])
    ensures |es| > 2 ==> LastOffset(es) > Size(es[0])
    ensures |es| > 2 ==> LastOffset(StepOf(es)) == LastOffset(es) + Size(Relinked(es[1], Size(es[0]))) - Size(es[1])
  {
    var fs, e := StepOf(es), Relinked(es[1], Size(es[0]));
    hide Raw, Size;
    LastOffsetStep(es);
    LastOffsetStep(fs);
    if |es| > 2 {
      LastOffsetStep(es[1..]);
      LastOffsetStep(fs[1..]);
      assert es[1..][1..] == es[2..] && fs[1..][1..] == es[2..] && fs[1] == e;
    }
  }

  /** The writes of a round that grows a link. */
  function GrowMemory(zl: seq<Byte>, junk: seq<Byte>, np: nat, rawlen: nat): seq<Byte>
    requires |zl| > HEADER && |junk| == 4 && np + 2 <= |zl| && np >= HEADER
  {
    var resized := Write(zl + junk, 0, LE(|zl| + 4, 4));
    var tailed := if Tail(resized) != np then Write(resized, 4, LE(Tail(resized) + 4, 4)) else resized;
    var moved := MemMove(tailed, np + 5, np + 1, |zl| - np - 1 - 1);
    Write(moved, np, StoreLarge(rawlen))
  }

  lemma Regroup(a: seq<Byte>, r: seq<Byte>, l: seq<Byte>, t: seq<Byte>, end: seq<Byte>)
    ensures a + (r + (l + t) + end) == a + r + (l + (t + end))
  {}

  lemma HeadGrown(total: nat, tail: nat, count: nat, rest: seq<Byte>, junk: seq<Byte>, np: nat)
    requires Fields(total + 4, tail + 4, count)
    ensures var resized := Write(Block(total, tail, count, rest) + junk, 0, LE(total + 4, 4));
            && |resized| == HEADER + |rest| + |junk| && Tail(resized) == tail
            && (if tail != np then Write(resized, 4, LE(Tail(resized) + 4, 4)) else resized)
               == Block(total + 4, if tail != np then tail + 4 else tail, count, rest + junk)
  {
    BlockSplit(total, tail, count, rest, junk);
    BlockWrite(total, tail, count, rest + junk, total + 4);
    BlockRead(total + 4, tail, count, rest + junk);
    BlockWrite(total + 4, tail, count, rest + junk, tail + 4);
    hide Block, Write, LE;
  }

  /** The same on bytes: `r` is the entry that has changed, `x` the link of the next one and
      `t` what follows that. */
  lemma GrownBytes(zl: seq<Byte>, junk: seq<Byte>, tail: nat, count: nat, a: seq<Byte>, r: seq<Byte>, x: Byte,
                   t: seq<Byte>)
    requires Fields(|zl| + 4, tail + 4, count) && |junk| == 4 && junk[3] == ZIP_END && |t| > 0
    requires zl == Block(|zl|, tail, count, a + (r + ([x] + t) + [ZIP_END]))
    ensures |zl| > HEADER && HEADER + |a| + |r| + 2 <= |zl|
    ensures var np := HEADER + |a| + |r|;
            GrowMemory(zl, junk, np, |r|)
            == Block(|zl| + 4,
                     if tail != np then tail + 4 else tail, count, a + (r + (StoreLarge(|r|) + t) + [ZIP_END]))
  {
    hide Block, LE, Write, MemMove, StoreLarge, Tail;
    var np, link, end := HEADER + |a| + |r|, StoreLarge(|r|), [ZIP_END];
    var tail', rest, n := if tail != np then tail + 4 else tail, a + (r + ([x] + t) + end), |zl| + 4;
    var q := Block(n, tail', count, a + r);
    HeadGrown(|zl|, tail, count, rest, junk, np);
    Regroup(a, r, [x], t, end);
    Regroup(a, r, link, t, end);
    BlockSplit(n, tail', count, rest, junk);
    BlockSplit(n, tail', count, a + r, [x] + (t + end));
    BlockSplit(n, tail', count, a + r, link + (t + end));
    GrowBytes(q, x, t, junk, link);
  }

  lemma RawParts(e: Entry, f: Entry)
    requires !e.wide && f.wide && f.content == e.content
    ensures ContentOk(e.content) && |Body(e.content)| > 0 && e.prev < ZIP_BIG_PREVLEN < 256
    ensures Raw(e) == [e.prev] + Body(e.content) && Raw(f) == StoreLarge(f.prev) + Body(e.content)
  {
    hide Body;
  }

  lemma Assoc(a: seq<Byte>, b: seq<Byte>, c: seq<Byte>)
    ensures a + b + c == a + (b + c)
  {}

  lemma EndsIs(zl: seq<Byte>, tail: nat, count: nat, a: seq<Byte>, es: seq<Entry>)
    requires es != [] && count <= UINT16_MAX && |zl| <= UINT32_MAX && tail == HEADER + |a| + LastOffset(es)
    requires zl == Block(|zl|, tail, count, a + (Flat(es) + [ZIP_END]))
    ensures Ends(zl, count, a, es)
  {
    hide Block, Flat, LastOffset;
  }

  lemma EndsParts(zl: seq<Byte>, count: nat, a: seq<Byte>, es: seq<Entry>)
    requires Ends(zl, count, a, es)
    ensures es != [] && count <= UINT16_MAX && |zl| == HEADER + |a| + |Flat(es)| + 1 && |zl| <= UINT32_MAX
    ensures zl == Block(|zl|, HEADER + |a| + LastOffset(es), count, a + (Flat(es) + [ZIP_END]))
    ensures LastOffset(es) <= |Flat(es)|
    ensures Fields(|zl|, HEADER + |a| + LastOffset(es), count)
    ensures |zl| + 4 <= UINT32_MAX ==> Fields(|zl| + 4, HEADER + |a| + LastOffset(es) + 4, count)
  {
    LastOffsetBound(es);
    hide Block, Flat, LastOffset, Size;
  }

  lemma Grown(zl: seq<Byte>, junk: seq<Byte>, count: nat, a: seq<Byte>, es: seq<Entry>)
    requires Ends(zl, count, a, es) && Grows(es) && |junk| == 4 && junk[3] == ZIP_END && |zl| + 4 <= UINT32_MAX
    ensures |zl| > HEADER && HEADER + |a| + Size(es[0]) + 2 <= |zl|
    ensures Size(es[0]) <= UINT32_MAX
    ensures Ends(GrowMemory(zl, junk, HEADER + |a| + Size(es[0]), Size(es[0])), count, a, StepOf(es))
  {
    hide *;
    EndsFacts(zl, count, a, es);
    EndsParts(zl, count, a, es);
    GrowsFacts(es);
    var tail, f := HEADER + |a| + LastOffset(es), Relinked(es[1], Size(es[0]));
    FlatTwo(es);
    StepFlat(es);
    StepTail(es);
    SameSize(es[1], f);
    RawParts(es[1], f);
    var body, more := Body(es[1].content), Flat(es[2..]);
    Assoc([es[1].prev], body, more);
    Assoc(StoreLarge(Size(es[0])), body, more);
    GrownBytes(zl, junk, tail, count, a, Raw(es[0]), es[1].prev, body + more);
    var zl' := GrowMemory(zl, junk, HEADER + |a| + Size(es[0]), Size(es[0]));
    EndsIs(zl', HEADER + |a| + LastOffset(StepOf(es)), count, a, StepOf(es));
  }

  lemma GrowsFacts(es: seq<Entry>)
    requires es != [] && Grows(es) && Size(es[0]) <= UINT32_MAX
    ensures |es| > 1 && es[1].prev != Size(es[0]) && !es[1].wide && es[1].prev < ZIP_BIG_PREVLEN
    ensures var f := Relinked(es[1], Size(es[0])); f.wide && f.prev == Size(es[0]) && f.content == es[1].content
  {
    hide Size;
  }

  /** The link written where it does not grow. */
  function NewLink(e: Entry, rawlen: nat): (b: seq<Byte>)
    requires e.wide || rawlen < ZIP_BIG_PREVLEN
    ensures |b| == if e.wide then 5 else 1
  {
    if e.wide then StoreLarge(rawlen) else StorePrev(rawlen)
  }

  lemma RawLink(e: Entry, f: Entry)
    requires f.wide == e.wide && f.content == e.content && (e.wide || f.prev < ZIP_BIG_PREVLEN)
    ensures ContentOk(e.content) && Raw(e) == Link(e) + Body(e.content)
    ensures Raw(f) == NewLink(e, f.prev) + Body(e.content)
  {
    hide Body;
  }

  lemma StaysFacts(es: seq<Entry>)
    requires |es| > 1 && !Grows(es) && es[1].prev != Size(es[0]) <= UINT32_MAX
    ensures var f := Relinked(es[1], Size(es[0]));
            f.wide == es[1].wide && f.prev == Size(es[0]) && f.content == es[1].content
              && (es[1].wide || f.prev < ZIP_BIG_PREVLEN)
  {
    hide Size;
  }

  lemma SwappedBytes(zl: seq<Byte>, tail: nat, count: nat, a: seq<Byte>, r: seq<Byte>, x: seq<Byte>, t: seq<Byte>,
                     link: seq<Byte>)
    requires zl == Block(|zl|, tail, count, a + (r + (x + t) + [ZIP_END])) && |link| == |x|
    ensures HEADER + |a| + |r| + |link| <= |zl|
    ensures Write(zl, HEADER + |a| + |r|, link) == Block(|zl|, tail, count, a + (r + (link + t) + [ZIP_END]))
  {
    hide Block, Write;
    Regroup(a, r, x, t, [ZIP_END]);
    Regroup(a, r, link, t, [ZIP_END]);
    BlockSplit(|zl|, tail, count, a + r, x + (t + [ZIP_END]));
    BlockSplit(|zl|, tail, count, a + r, link + (t + [ZIP_END]));
    SwapBytes(Block(|zl|, tail, count, a + r), x, t + [ZIP_END], link);
  }

  lemma Swapped(zl: seq<Byte>, count: nat, a: seq<Byte>, es: seq<Entry>)
    requires Ends(zl, count, a, es) && |es| > 1 && !Grows(es) && es[1].prev != Size(es[0]) <= UINT32_MAX
    ensures es[1].wide || Size(es[0]) < ZIP_BIG_PREVLEN
    ensures var link := NewLink(es[1], Size(es[0]));
            && HEADER + |a| + Size(es[0]) + |link| <= |zl|
            && Ends(Write(zl, HEADER + |a| + Size(es[0]), link), count, a, StepOf(es))
  {
    hide *;
    EndsParts(zl, count, a, es);
    StaysFacts(es);
    var tail, f := HEADER + |a| + LastOffset(es), Relinked(es[1], Size(es[0]));
    FlatTwo(es);
    StepFlat(es);
    StepTail(es);
    SameSize(es[1], f);
    RawLink(es[1], f);
    var link, body, more := NewLink(es[1], Size(es[0])), Body(es[1].content), Flat(es[2..]);
    Assoc(Link(es[1]), body, more);
    Assoc(link, body, more);
    SwappedBytes(zl, tail, count, a, Raw(es[0]), Link(es[1]), body + more, link);
    EndsIs(Write(zl, HEADER + |a| + Size(es[0]), link), tail, count, a, StepOf(es));
  }

  /** Moving the cursor over the first entry. */
  lemma EndsMove(zl: seq<Byte>, count: nat, a: seq<Byte>, es: seq<Entry>)
    requires Ends(zl, count, a, es) && |es| > 1
    ensures Ends(zl, count, a + Raw(es[0]), es[1..])
  {
    hide *;
    EndsParts(zl, count, a, es);
    LastOffsetStep(es);
    FlatHead(es);
    Assoc(Raw(es[0]), Flat(es[1..]), [ZIP_END]);
    Assoc(a, Raw(es[0]), Flat(es[1..]) + [ZIP_END]);
    EndsIs(zl, HEADER + |a| + LastOffset(es), count, a + Raw(es[0]), es[1..]);
  }

  lemma FlatHead(es: seq<Entry>)
    requires es != []
    ensures Flat(es) == Raw(es[0]) + Flat(es[1..])
  {}

  /** Taking entries before the cursor back into view. */
  lemma EndsJoin(zl: seq<Byte>, count: nat, a: seq<Byte>, before: seq<Entry>, es: seq<Entry>)
    requires Ends(zl, count, a + Flat(before), es)
    ensures Ends(zl, count, a, before + es)
  {
    hide *;
    EndsParts(zl, count, a + Flat(before), es);
    FlatAppend(before, es);
    LastOffsetJoin(before, es);
    Assoc(Flat(before), Flat(es), [ZIP_END]);
    Assoc(a, Flat(before), Flat(es) + [ZIP_END]);
    EndsIs(zl, HEADER + |a + Flat(before)| + LastOffset(es), count, a, before + es);
  }

  lemma LastOffsetJoin(before: seq<Entry>, es: seq<Entry>)
    requires es != []
    ensures LastOffset(before + es) == |Flat(before)| + LastOffset(es)
  {
    hide Flat;
    assert (before + es)[..|before + es| - 1] == before + es[..|es| - 1];
    FlatAppend(before, es[..|es| - 1]);
  }

  /** One round of __ziplistCascadeUpdate at entry `p0`; `more` if it grew the next entry. Behind
      the last entry it stops, wherever the tail offset points. */
  method Step(zl0: seq<Byte>, p0: nat, ghost count: nat, ghost a: seq<Byte>, ghost es: seq<Entry>)
    returns (zl: seq<Byte>, p: nat, more: bool)
    requires es != [] && Suffix(zl0, p0, es) && p0 == HEADER + |a| && |zl0| + 4 <= UINT32_MAX
    requires |es| > 1 ==> Ends(zl0, count, a, es)
    ensures |es| == 1 ==> zl == zl0 && !more
    ensures Size(es[0]) <= UINT32_MAX && (more <==> Grows(es))
    ensures Ends(zl0, count, a, es) ==> Ends(zl, count, a, StepOf(es))
    ensures more ==> p == p0 + Size(es[0]) && |zl| == |zl0| + 4
  {
    hide *;
    zl, p, more := zl0, p0, false;
    SuffixHead(zl, p, es);
    EntryRead(zl, p, es[0]);
    var cur := ReadEntry(zl, p);
    var rawlen := cur.headersize + cur.len;
    var rawlensize := PrevSize(rawlen);
    AtEnd(zl, p + rawlen, es[1..]);
    StepCases(es);
    if zl[p + rawlen] == ZIP_END { return; }
    SuffixHead(zl, p + rawlen, es[1..]);
    EntryRead(zl, p + rawlen, es[1]);
    var next := ReadEntry(zl, p + rawlen);
    if next.prevrawlen == rawlen { return; }
    if next.prevrawlensize < rawlensize {
      var curlen, offset, extra := |zl|, p, rawlensize - next.prevrawlensize;
      ghost var junk;
      zl, junk := Resize(zl, curlen + extra);
      p := offset;
      var np := p + rawlen;
      var noffset := np;
      Grown(zl0, junk, count, a, es);
      GrowMemoryIs(zl0, junk, np, rawlen);
      if Tail(zl) != np { zl := Write(zl, 4, LE(Tail(zl) + extra, 4)); }
      zl := MemMove(zl, np + rawlensize, np + next.prevrawlensize, curlen - noffset - next.prevrawlensize - 1);
      zl := Write(zl, np, StorePrev(rawlen));
      p := p + rawlen;
      more := true;
    } else {
      Swapped(zl, count, a, es);
      NewLinkIs(es[1], rawlen);
      if next.prevrawlensize > rawlensize {
        zl := Write(zl, p + rawlen, StoreLarge(rawlen));
      } else {
        zl := Write(zl, p + rawlen, StorePrev(rawlen));
      }
    }
  }

  /** What a round finds. */
  lemma StepCases(es: seq<Entry>)
    requires es != [] && Size(es[0]) <= UINT32_MAX
    ensures |es| == 1 ==> StepOf(es) == es && !Grows(es)
    ensures |es| > 1 ==> es[1..] != [] && es[1..][0] == es[1]
    ensures |es| == 1 ==> es[1..] == []
    ensures |es| > 1 && es[1].prev == Size(es[0]) ==> StepOf(es) == es && !Grows(es)
    ensures |es| > 1 && es[1].prev != Size(es[0]) ==>
            (Grows(es) <==> (if es[1].wide then 5 else 1) < PrevSize(Size(es[0])))
    ensures PrevSize(Size(es[0])) == if Size(es[0]) >= ZIP_BIG_PREVLEN then 5 else 1
  {
    hide Size;
  }

  lemma GrowMemoryIs(zl: seq<Byte>, junk: seq<Byte>, np: nat, rawlen: nat)
    requires |zl| > HEADER && |junk| == 4 && np + 2 <= |zl| && np >= HEADER
    ensures 4 <= |zl| && HEADER == 10 && |LE(|zl| + 4, 4)| == 4
    ensures rawlen >= ZIP_BIG_PREVLEN ==>
      var resized := Write(zl + junk, 0, LE(|zl| + 4, 4));
      var tailed := if Tail(resized) != np then Write(resized, 4, LE(Tail(resized) + 4, 4)) else resized;
      && |resized| == |tailed| == |zl| + 4
      && np + 5 <= |zl| + 4 && |StorePrev(rawlen)| == 5
      && Write(MemMove(tailed, np + 5, np + 1, |zl| - np - 1 - 1), np, StorePrev(rawlen))
         == GrowMemory(zl, junk, np, rawlen)
  {
    hide Write, MemMove, LE, StoreLarge, Tail;
  }

  lemma NewLinkIs(e: Entry, rawlen: nat)
    requires e.wide || rawlen < ZIP_BIG_PREVLEN
    ensures (if e.wide then 5 else 1) > PrevSize(rawlen) ==> NewLink(e, rawlen) == StoreLarge(rawlen)
    ensures (if e.wide then 5 else 1) <= PrevSize(rawlen) ==> NewLink(e, rawlen) == StorePrev(rawlen)
  {}

  /** __ziplistCascadeUpdate: bring the links behind entry `p0` up to date. */
  method CascadeUpdate(zl0: seq<Byte>, p0: nat, ghost count: nat, ghost a: seq<Byte>, ghost es: seq<Entry>)
    returns (zl: seq<Byte>)
    requires Suffix(zl0, p0, es) && p0 == HEADER + |a| && |zl0| + 4 * |es| <= UINT32_MAX
    requires |es| > 1 ==> Ends(zl0, count, a, es)
    ensures |es| <= 1 ==> zl == zl0
    ensures Ends(zl0, count, a, es) ==> Room(es) && Ends(zl, count, a, Fixed(es))
  {
    hide *;
    ghost var linked := Ends(zl0, count, a, es);
    zl := zl0;
    var p, more := p0, true;
    if linked { RoomIs(zl, count, a, es); }
    ghost var before: seq<Entry>, rest := [], es;
    FlatNone(a);
    AtEnd(zl, p, es);
    assert linked ==> before + Fixed(rest) == Fixed(es);
    while zl[p] != ZIP_END
      invariant 0 <= p < |zl| && Suffix(zl, p, rest) && (zl[p] == ZIP_END <==> rest == [])
      invariant p == HEADER + |a + Flat(before)| && |zl| + 4 * |rest| <= UINT32_MAX
      invariant |rest| > 1 ==> linked
      invariant |es| <= 1 ==> zl == zl0 && rest == es
      invariant linked ==> rest != [] && Room(rest) && Ends(zl, count, a + Flat(before), rest)
      invariant linked ==> before + Fixed(rest) == Fixed(es)
      decreases |rest|
    {
      ghost var a', r := a + Flat(before), rest[0];
      ghost var next: seq<Entry> := [];
      if linked {
        FixedStep(rest);
        next := StepOf(rest);
        GrowsLength(rest);
        FlatSnoc(a, before, r);
      }
      zl, p, more := Step(zl, p, count, a', rest);
      if !more {
        if linked { EndsJoin(zl, count, a, before, next); }
        break;
      }
      GrowsMany(rest);
      EndsMove(zl, count, a', next);
      assert before + ([r] + Fixed(next[1..])) == before + [r] + Fixed(next[1..]);
      before, rest := before + [r], next[1..];
      EndsFacts(zl, count, a + Flat(before), rest);
      AtEnd(zl, p, rest);
    }
  }

  lemma GrowsMany(es: seq<Entry>)
    requires es != [] && Size(es[0]) <= UINT32_MAX
    ensures Grows(es) ==> |es| > 1
  {
    hide Size;
  }

  lemma RoomIs(zl: seq<Byte>, count: nat, a: seq<Byte>, es: seq<Entry>)
    requires Ends(zl, count, a, es) && |zl| + 4 * |es| <= UINT32_MAX
    ensures es != [] && Room(es) && Suffix(zl, HEADER + |a|, es)
  {
    EndsFacts(zl, count, a, es);
    hide Block, Flat, LastOffset;
  }

  lemma FlatNone(a: seq<Byte>)
    ensures a + Flat([]) == a
  {}

  lemma FlatSnoc(a: seq<Byte>, before: seq<Entry>, e: Entry)
    ensures a + Flat(before) + Raw(e) == a + Flat(before + [e]) && |Raw(e)| == Size(e)
  {
    FlatAppend(before, [e]);
    FlatOne(e);
    hide Flat, Raw;
    Assoc(a, Flat(before), Raw(e));
  }

  lemma GrowsLength(es: seq<Entry>)
    requires es != [] && Size(es[0]) <= UINT32_MAX
    ensures StepOf(es) != [] && (Grows(es) ==> |StepOf(es)| > 1)
  {
    hide Size;
  }
}
