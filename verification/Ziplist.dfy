/** The ziplist operations: each takes the block and returns the block, changed through the
    moves and writes of ziplist.c. */
module Ziplist {
  import opened Bytes
  import opened Endian
  import opened Memory
  import opened Options
  import opened Util
  import opened ZipCascade
  import opened ZipEntry
  import opened ZipLayout

  // ----- Representation -----

  /** The header's count is exact until it reaches its maximum, and stays there. */
  /** The count after entries have come or gone: one at its maximum stays there. */
  function Recount(count: nat, n: int): (c: nat)
    requires count + n >= 0 || count >= UINT16_MAX
  {
    if count < UINT16_MAX then count + n else count
  }

  lemma RecountIs(count: nat, n: int)
    requires count + n >= 0 || count >= UINT16_MAX
    ensures Recount(count, n) == if count < UINT16_MAX then count + n else count
  {}

  predicate CountOk(count: nat, n: nat) { count <= UINT16_MAX && (count < UINT16_MAX ==> count == n) }

  function TailOf(es: seq<Entry>): nat { if es == [] then HEADER else HEADER + LastOffset(es) }

  ghost predicate Holds(zl: seq<Byte>, count: nat, es: seq<Entry>)
  {
    && |zl| == HEADER + |Flat(es)| + 1 && |zl| <= UINT32_MAX && CountOk(count, |es|) && Chained(0, es)
    && zl == Block(|zl|, TailOf(es), count, Flat(es) + [ZIP_END])
  }

  /** The block is a ziplist of these entries. */
  ghost predicate Rep(zl: seq<Byte>, es: seq<Entry>) { |zl| > HEADER && Holds(zl, Count(zl), es) }

  /** Where entry `i` begins; the end byte for |es|. */
  function OffsetOf(es: seq<Entry>, i: nat): nat
    requires i <= |es|
  {
    HEADER + |Flat(es[..i])|
  }

  /** What the entry is the text of, whatever its encoding. */
  function TextOf(c: Content): seq<Byte> { match c case Str(s) => s case Num(v) => Text(v) }

  function Texts(es: seq<Entry>): (ts: seq<seq<Byte>>)
    ensures |ts| == |es| && forall i :: 0 <= i < |es| ==> ts[i] == TextOf(es[i].content)
  {
    seq(|es|, i requires 0 <= i < |es| => TextOf(es[i].content))
  }

  /** How a string is stored: as an integer if it is short and the text of one. */
  ghost function Encoded(s: seq<Byte>): Content
  {
    if 0 < |s| < 32 && Parsed(s).Some? then Num(Parsed(s).value) else Str(s)
  }

  lemma EncodedText(s: seq<Byte>)
    requires |s| <= UINT32_MAX
    ensures ContentOk(Encoded(s)) && TextOf(Encoded(s)) == s && |Body(Encoded(s))| <= |s| + 9
  {
    hide Text, SaveInteger, EncodingOf, StoreLength;
    if Encoded(s).Num? { IntegerRoundTrip(Encoded(s).v); }
  }

  /** No two contents that can be stored have the same text. */
  lemma EncodedNumber(v: int)
    requires LongLong(v)
    ensures Encoded(Text(v)) == Num(v)
  {
    hide Text;
    TextShort(v);
    assert Parses(Text(v), v);
  }

  // ----- Reading -----

  lemma RepFacts(zl: seq<Byte>, es: seq<Entry>)
    requires Rep(zl, es)
    ensures |zl| > HEADER && |zl| == HEADER + |Flat(es)| + 1 && |zl| <= UINT32_MAX && Total(zl) == |zl|
    ensures Tail(zl) == TailOf(es)
    ensures Suffix(zl, HEADER, es) && Chained(0, es) && CountOk(Count(zl), |es|)
    ensures zl == Block(|zl|, TailOf(es), Count(zl), Flat(es) + [ZIP_END])
  {
    hide Block, Flat, Chained, LastOffset, Count, Suffix;
    if es != [] { LastOffsetBound(es); }
    BlockRead(|zl|, TailOf(es), Count(zl), Flat(es) + [ZIP_END]);
    assert zl[HEADER..] == Flat(es) + [ZIP_END];
    SuffixOf(zl, HEADER, es);
  }

  lemma SuffixOf(zl: seq<Byte>, p: nat, es: seq<Entry>)
    requires p <= |zl| && zl[p..] == Flat(es) + [ZIP_END]
    ensures Suffix(zl, p, es)
  {
    hide Flat;
  }

  lemma RepIs(zl: seq<Byte>, count: nat, es: seq<Entry>)
    requires |zl| <= UINT32_MAX && CountOk(count, |es|) && Chained(0, es)
    requires zl == Block(|zl|, TailOf(es), count, Flat(es) + [ZIP_END])
    ensures Rep(zl, es) && Count(zl) == count
  {
    hide Block, Flat, Chained, LastOffset, Count;
    if es != [] { LastOffsetBound(es); }
    BlockRead(|zl|, TailOf(es), count, Flat(es) + [ZIP_END]);
  }

  /** From every offset on, the rest of the entries can be read. */
  lemma {:induction false} SuffixAt(zl: seq<Byte>, es: seq<Entry>, i: nat)
    requires Suffix(zl, HEADER, es) && i <= |es|
    ensures Suffix(zl, OffsetOf(es, i), es[i..])
  {
    hide *;
    if i == 0 {
      FirstOffset(es);
      assert es[0..] == es;
    } else {
      SuffixAt(zl, es, i - 1);
      SuffixHead(zl, OffsetOf(es, i - 1), es[i - 1..]);
      NextOffset(es, i - 1);
      assert es[i - 1..][0] == es[i - 1] && es[i - 1..][1..] == es[i..];
    }
  }

  lemma FirstOffset(es: seq<Entry>)
    ensures OffsetOf(es, 0) == HEADER
  {}

  lemma NextOffset(es: seq<Entry>, i: nat)
    requires i < |es|
    ensures OffsetOf(es, i + 1) == OffsetOf(es, i) + Size(es[i])
  {
    hide Flat, Size, Raw;
    assert es[..i + 1] == es[..i] + [es[i]];
    FlatAppend(es[..i], [es[i]]);
    FlatOne(es[i]);
  }

  lemma {:induction false} LinkAt(prev: nat, es: seq<Entry>, i: nat)
    requires Chained(prev, es) && i < |es|
    ensures es[i].prev == if i == 0 then prev else Size(es[i - 1])
    decreases |es|
  {
    hide *;
    ChainStep(prev, es);
    if i > 0 { LinkAt(Size(es[0]), es[1..], i - 1); }
  }

  lemma ChainStep(prev: nat, es: seq<Entry>)
    requires Chained(prev, es) && es != []
    ensures es[0].prev == prev && Chained(Size(es[0]), es[1..])
  {}

  /** What the macros read at entry `i`. */
  lemma ReadAt(zl: seq<Byte>, es: seq<Entry>, i: nat)
    requires Rep(zl, es) && i < |es|
    ensures var p := OffsetOf(es, i);
            && p + Size(es[i]) == OffsetOf(es, i + 1) < |zl| && zl[p] != ZIP_END && StoredAt(zl, p, es[i])
               && Readable(zl, p)
            && RawEntryLength(zl, p) == Size(es[i]) && PrevLenSize(zl, p) == |Link(es[i])|
               && p + PrevLenSize(zl, p) <= |zl| && PrevLen(zl, p) == es[i].prev
            && (zl[p + Size(es[i])] == ZIP_END <==> i + 1 == |es|)
    ensures es[i].prev == if i == 0 then 0 else Size(es[i - 1])
  {
    hide *;
    RepFacts(zl, es);
    SuffixAt(zl, es, i);
    SuffixAt(zl, es, i + 1);
    NextOffset(es, i);
    SuffixHead(zl, OffsetOf(es, i), es[i..]);
    EntryRead(zl, OffsetOf(es, i), es[i]);
    ReadEntryPrev(zl, OffsetOf(es, i));
    AtEnd(zl, OffsetOf(es, i + 1), es[i + 1..]);
    LinkAt(0, es, i);
    assert es[i..][0] == es[i];
  }

  lemma ReadEntryPrev(zl: seq<Byte>, p: nat)
    requires Readable(zl, p)
    ensures p + PrevLenSize(zl, p) <= |zl| && ReadEntry(zl, p).prevrawlen == PrevLen(zl, p)
    ensures ReadEntry(zl, p).prevrawlensize == PrevLenSize(zl, p)
  {
    hide PrevLen, DecodeLength;
  }

  /** The end byte. */
  lemma EndAt(zl: seq<Byte>, es: seq<Entry>)
    requires Rep(zl, es)
    ensures |zl| > HEADER && OffsetOf(es, |es|) == |zl| - 1 && zl[|zl| - 1] == ZIP_END
  {
    hide *;
    RepFacts(zl, es);
    SuffixAt(zl, es, |es|);
    AtEnd(zl, OffsetOf(es, |es|), es[|es|..]);
  }

  /** The tail offset leads to the last entry, or to the end byte of an empty list. */
  lemma TailAt(zl: seq<Byte>, es: seq<Entry>)
    requires Rep(zl, es)
    ensures Tail(zl) == OffsetOf(es, if es == [] then 0 else |es| - 1) < |zl| && (zl[Tail(zl)] == ZIP_END <==> es == [])
  {
    hide Rep, Flat, Suffix, Chained, Block, StoredAt, Raw, Size, Count, Tail, Total, Readable, RawEntryLength, PrevLen;
    RepFacts(zl, es);
    EndAt(zl, es);
    FirstOffset(es);
    if es != [] { ReadAt(zl, es, |es| - 1); }
  }

  /** A block is a ziplist of one list of entries only. */
  lemma RepUnique(zl: seq<Byte>, es: seq<Entry>, fs: seq<Entry>)
    requires Rep(zl, es) && Rep(zl, fs)
    ensures es == fs
  {
    hide *;
    RepFacts(zl, es);
    RepFacts(zl, fs);
    SuffixUnique(zl, HEADER, es, fs);
  }

  /** The block is the ziplist of these texts, laid out as it should be. */
  ghost predicate Stores(zl: seq<Byte>, ts: seq<seq<Byte>>) { exists es :: Rep(zl, es) && Texts(es) == ts }

  lemma StoresTexts(zl: seq<Byte>, es: seq<Entry>)
    requires Rep(zl, es)
    ensures Stores(zl, Texts(es))
  {
    hide Rep, Texts;
  }

  /** A block stores one list of texts only. */
  lemma StoresOne(zl: seq<Byte>, ts: seq<seq<Byte>>, us: seq<seq<Byte>>)
    requires Stores(zl, ts) && Stores(zl, us)
    ensures ts == us
  {
    hide Rep, Texts;
    var es :| Rep(zl, es) && Texts(es) == ts;
    var fs :| Rep(zl, fs) && Texts(fs) == us;
    RepUnique(zl, es, fs);
  }

  /** ziplistNew. */
  method New() returns (zl: seq<Byte>)
    ensures Rep(zl, []) && Count(zl) == 0
  {
    hide LE;
    var bytes := HEADER + 1;
    zl := LE(bytes, 4) + LE(HEADER, 4) + LE(0, 2) + [ZIP_END];
    assert Flat([]) + [ZIP_END] == [ZIP_END];
    RepIs(zl, 0, []);
  }

  /** ziplistIndex: forward from the head, or backward from the tail for a negative index. */
  method Index(zl: seq<Byte>, index0: int, ghost es: seq<Entry>) returns (r: Option<nat>)
    requires Rep(zl, es)
    ensures index0 >= 0 ==> r == if index0 < |es| then Some(OffsetOf(es, index0)) else None
    ensures index0 < 0 ==> r == if |es| + index0 >= 0 then Some(OffsetOf(es, |es| + index0)) else None
  {
    hide *;
    var index: int := index0;
    var p: nat;
    RepFacts(zl, es);
    TailAt(zl, es);
    EndAt(zl, es);
    FirstOffset(es);
    ghost var i: nat;
    if index < 0 {
      index := -index - 1;
      p := Tail(zl);
      if zl[p] != ZIP_END {
        i := |es| - 1;
        ReadAt(zl, es, i);
        var prevlen := PrevLen(zl, p);
        while prevlen > 0 && index > 0
          invariant i < |es| && p == OffsetOf(es, i) && p < |zl| && zl[p] != ZIP_END
          invariant prevlen == if i == 0 then 0 else Size(es[i - 1])
          invariant index >= 0 && i - index == |es| + index0
          decreases index
        {
          ReadAt(zl, es, i);
          ReadAt(zl, es, i - 1);
          p, i, index := p - prevlen, i - 1, index - 1;
          prevlen := PrevLen(zl, p);
        }
      }
    } else {
      p, i := HEADER, 0;
      AtHead(zl, es);
      while zl[p] != ZIP_END && index > 0
        invariant i <= |es| && p == OffsetOf(es, i) && p < |zl| && (zl[p] == ZIP_END <==> i == |es|)
        invariant index >= 0 && i + index == index0
        decreases index
      {
        ReadAt(zl, es, i);
        p, i, index := p + RawEntryLength(zl, p), i + 1, index - 1;
      }
    }
    r := if zl[p] == ZIP_END || index > 0 then None else Some(p);
  }

  lemma AtHead(zl: seq<Byte>, es: seq<Entry>)
    requires Rep(zl, es)
    ensures HEADER < |zl| && (zl[HEADER] == ZIP_END <==> es == [])
  {
    hide *;
    RepFacts(zl, es);
    AtEnd(zl, HEADER, es);
  }

  /** An entry's index from either end leads to the same place. */
  method IndexBothWays(zl: seq<Byte>, i: nat, n: nat, ghost es: seq<Entry>)
    returns (front: Option<nat>, back: Option<nat>)
    requires Rep(zl, es) && i < |es| == n
    ensures front == back == Some(OffsetOf(es, i))
  {
    hide *;
    front := Index(zl, i, es);
    back := Index(zl, i - n, es);
  }

  /** ziplistNext, from an entry or the end byte. */
  method Next(zl: seq<Byte>, p0: nat, ghost es: seq<Entry>, ghost i: nat) returns (r: Option<nat>)
    requires Rep(zl, es) && i <= |es| && p0 == OffsetOf(es, i)
    ensures r == if i + 1 < |es| then Some(OffsetOf(es, i + 1)) else None
  {
    hide *;
    EndAt(zl, es);
    if i < |es| { ReadAt(zl, es, i); }
    if zl[p0] == ZIP_END { return None; }
    var p := p0 + RawEntryLength(zl, p0);
    if zl[p] == ZIP_END { return None; }
    return Some(p);
  }

  /** ziplistPrev; from the end byte it is the last entry. */
  method Prev(zl: seq<Byte>, p: nat, ghost es: seq<Entry>, ghost i: nat) returns (r: Option<nat>)
    requires Rep(zl, es) && i <= |es| && p == OffsetOf(es, i)
    ensures r == if i > 0 then Some(OffsetOf(es, i - 1)) else None
  {
    hide *;
    EndAt(zl, es);
    TailAt(zl, es);
    FirstOffset(es);
    if i < |es| { ReadAt(zl, es, i); }
    if i > 0 && i <= |es| { ReadAt(zl, es, i - 1); }
    if zl[p] == ZIP_END {
      var tail := Tail(zl);
      return if zl[tail] == ZIP_END then None else Some(tail);
    }
    if p == HEADER {
      OffsetPositive(es, i);
      return None;
    }
    return Some(p - PrevLen(zl, p));
  }

  lemma OffsetPositive(es: seq<Entry>, i: nat)
    requires i <= |es|
    ensures OffsetOf(es, i) == HEADER <==> i == 0
  {
    if i > 0 {
      assert Flat(es[..i]) == Raw(es[..i][0]) + Flat(es[..i][1..]);
    }
    hide Raw, Flat;
  }

  /** ziplistGet at an entry. */
  method Get(zl: seq<Byte>, p: nat, ghost es: seq<Entry>, ghost i: nat) returns (c: Content)
    requires Rep(zl, es) && i < |es| && p == OffsetOf(es, i)
    ensures c == es[i].content
  {
    hide *;
    ReadAt(zl, es, i);
    EntryRead(zl, p, es[i]);
    ReadIs(zl, p, es[i]);
    var entry := ReadEntry(zl, p);
    c := if entry.IsStr() then Str(zl[p + entry.headersize..p + entry.headersize + entry.len])
         else Num(LoadInteger(zl[p + entry.headersize..p + entry.headersize + entry.len], entry.encoding));
  }

  lemma ReadIs(zl: seq<Byte>, p: nat, e: Entry)
    requires StoredAt(zl, p, e)
    ensures p + Size(e) <= |zl|
  {
    hide Size, Raw;
  }

  /** zipTryEncoding. */
  method TryEncoding(s: seq<Byte>) returns (r: Option<int>, encoding: Byte)
    ensures Encoded(s) == if r.Some? then Num(r.value) else Str(s)
    ensures r.Some? ==> LongLong(r.value) && encoding == EncodingOf(r.value)
  {
    r, encoding := None, 0;
    if |s| >= 32 || |s| == 0 { return; }
    hide Text;
    var value := String2LL(s);
    if value.Some? {
      r, encoding := value, EncodingOf(value.value);
    }
  }

  /** ziplistCompare: is the entry the text `s`, whatever the encoding? */
  method Compare(zl: seq<Byte>, p: nat, s: seq<Byte>, ghost es: seq<Entry>, ghost i: nat) returns (equal: bool)
    requires Rep(zl, es) && i <= |es| && p == OffsetOf(es, i)
    ensures equal <==> i < |es| && TextOf(es[i].content) == s
  {
    hide *;
    EndAt(zl, es);
    if i < |es| {
      ReadAt(zl, es, i);
      EntryRead(zl, p, es[i]);
      ReadIs(zl, p, es[i]);
      SameText(es[i], s);
    }
    if zl[p] == ZIP_END { return false; }
    var entry := ReadEntry(zl, p);
    if entry.IsStr() {
      return entry.len == |s| && zl[p + entry.headersize..p + entry.headersize + entry.len] == s;
    }
    var sval, sencoding := TryEncoding(s);
    if sval.Some? {
      var zval := LoadInteger(zl[p + entry.headersize..p + entry.headersize + entry.len], entry.encoding);
      return zval == sval.value;
    }
    return false;
  }

  /** When an entry is the text `s`. */
  lemma SameText(e: Entry, s: seq<Byte>)
    ensures e.content.Str? ==> (TextOf(e.content) == s <==> e.content.s == s)
    ensures e.content.Num? ==> (TextOf(e.content) == s <==> Encoded(s) == e.content)
  {
    hide Text;
    var c := e.content;
    if c.Num? {
      EncodedNumber(c.v);
      if Encoded(s) == c { assert Parses(s, c.v); }
    }
  }

  /** ziplistLen: counts when the header's count is at its maximum, and stores the result if it
      fits. */
  method Len(zl0: seq<Byte>, ghost es: seq<Entry>) returns (zl: seq<Byte>, len: nat)
    requires Rep(zl0, es)
    ensures Rep(zl, es) && len == |es|
    ensures if |es| < UINT16_MAX then Count(zl) == |es| else zl == zl0
  {
    hide *;
    zl, len := zl0, 0;
    RepFacts(zl, es);
    CountFacts(Count(zl), |es|);
    if Count(zl) < UINT16_MAX { return zl, Count(zl); }
    AtHead(zl, es);
    FirstOffset(es);
    var p := HEADER;
    while zl[p] != ZIP_END
      invariant len <= |es| && p == OffsetOf(es, len) && p < |zl| && (zl[p] == ZIP_END <==> len == |es|)
      decreases |es| - len
    {
      ReadAt(zl, es, len);
      p, len := p + RawEntryLength(zl, p), len + 1;
    }
    if len < UINT16_MAX {
      Recounted(zl, es, len);
      zl := Write(zl, 8, LE(len, 2));
    }
  }

  lemma CountFacts(count: nat, n: nat)
    requires CountOk(count, n)
    ensures count < UINT16_MAX ==> count == n
    ensures n < UINT16_MAX ==> CountOk(n, n)
  {}

  /** Writing a good count. */
  lemma Recounted(zl: seq<Byte>, es: seq<Entry>, count: nat)
    requires Rep(zl, es) && CountOk(count, |es|)
    ensures |zl| > HEADER && HEADER == 10 && Rep(Write(zl, 8, LE(count, 2)), es)
    ensures Count(Write(zl, 8, LE(count, 2))) == count
  {
    hide Block, Flat, LE, Write, Chained, Suffix, Total, Tail, Count, LastOffset;
    RepFacts(zl, es);
    BlockWrite(|zl|, TailOf(es), Count(zl), Flat(es) + [ZIP_END], count);
    RepIs(Write(zl, 8, LE(count, 2)), count, es);
  }
}
