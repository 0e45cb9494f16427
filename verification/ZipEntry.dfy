/** One entry of a ziplist: its bytes, and what the macros of ziplist.c read back from them. */
module ZipEntry {
  import opened Bytes
  import opened Endian
  import opened Util

  const ZIP_END: Byte := 255
  const ZIP_BIG_PREVLEN: Byte := 254
  const ZIP_INT_16B := 0xc0
  const ZIP_INT_32B := 0xd0
  const ZIP_INT_64B := 0xe0
  const ZIP_INT_24B := 0xf0
  const ZIP_INT_8B := 0xfe
  const ZIP_INT_IMM_MIN := 0xf1
  const UINT32_MAX: nat := 0xFFFF_FFFF

  /** What an entry stores: a string, or the integer a string is the text of. */
  datatype Content = Str(s: seq<Byte>) | Num(v: int)

  /** An entry: the width and value of its back-link and its content. */
  datatype Item = Item(wide: bool, prev: nat, content: Content)

  type Entry = e: Item | EntryOk(e) witness Item(false, 0, Num(0))

  predicate ContentOk(c: Content) { match c case Str(s) => |s| <= UINT32_MAX case Num(v) => LongLong(v) }

  predicate EntryOk(e: Item) { ContentOk(e.content) && e.prev <= (if e.wide then UINT32_MAX else ZIP_BIG_PREVLEN - 1) }

  // ----- Integers -----

  /** The smallest encoding that holds the value. */
  function EncodingOf(v: int): Byte
    requires LongLong(v)
  {
    if 0 <= v <= 12 then ZIP_INT_IMM_MIN + v
    else if -0x80 <= v < 0x80 then ZIP_INT_8B
    else if -0x8000 <= v < 0x8000 then ZIP_INT_16B
    else if -0x80_0000 <= v < 0x80_0000 then ZIP_INT_24B
    else if -0x8000_0000 <= v < 0x8000_0000 then ZIP_INT_32B
    else ZIP_INT_64B
  }

  /** zipIntSize. */
  function IntSize(encoding: Byte): nat
  {
    if encoding == ZIP_INT_8B then 1
    else if encoding == ZIP_INT_16B then 2
    else if encoding == ZIP_INT_24B then 3
    else if encoding == ZIP_INT_32B then 4
    else if encoding == ZIP_INT_64B then 8
    else 0
  }

  /** zipSaveInteger: the bytes stored; a 24 bit value goes through the upper three of four. */
  function SaveInteger(value: int, encoding: Byte): seq<Byte>
    requires LongLong(value) && encoding == EncodingOf(value)
  {
    Pow256Values();
    if encoding == ZIP_INT_8B then LE(Wrap(value, 1), 1)
    else if encoding == ZIP_INT_16B then LE(Wrap(value, 2), 2)
    else if encoding == ZIP_INT_24B then LE(Wrap(value * 256, 4), 4)[1..]
    else if encoding == ZIP_INT_32B then LE(Wrap(value, 4), 4)
    else if encoding == ZIP_INT_64B then LE(Wrap(value, 8), 8)
    else []
  }

  /** zipLoadInteger. */
  function LoadInteger(b: seq<Byte>, encoding: Byte): int
    requires |b| == IntSize(encoding)
  {
    if encoding == ZIP_INT_8B then Unwrap(FromLE(b), 1)
    else if encoding == ZIP_INT_16B then Unwrap(FromLE(b), 2)
    else if encoding == ZIP_INT_32B then Unwrap(FromLE(b), 4)
    else if encoding == ZIP_INT_24B then Unwrap(FromLE([0] + b), 4) / 256
    else if encoding == ZIP_INT_64B then Unwrap(FromLE(b), 8)
    else encoding % 16 - 1
  }

  /** A stored integer is read back whatever its encoding. */
  lemma IntegerRoundTrip(v: int)
    requires LongLong(v)
    ensures |SaveInteger(v, EncodingOf(v))| == IntSize(EncodingOf(v))
    ensures LoadInteger(SaveInteger(v, EncodingOf(v)), EncodingOf(v)) == v
  {
    Pow256Values();
    hide Pow256, FromLE, Unwrap;
    var enc := EncodingOf(v);
    if enc == ZIP_INT_8B {
      SignedRoundTrip(v, 1);
    } else if enc == ZIP_INT_16B {
      SignedRoundTrip(v, 2);
    } else if enc == ZIP_INT_24B {
      SignedRoundTrip(v * 256, 4);
      assert LE(Wrap(v * 256, 4), 4)[0] == 0;
      assert [0] + LE(Wrap(v * 256, 4), 4)[1..] == LE(Wrap(v * 256, 4), 4);
    } else if enc == ZIP_INT_32B {
      SignedRoundTrip(v, 4);
    } else if enc == ZIP_INT_64B {
      SignedRoundTrip(v, 8);
    }
  }

  /** The encodings of integers: five widths, and thirteen values held by the encoding itself. */
  predicate IntEncoding(encoding: Byte)
  {
    || encoding == ZIP_INT_8B || encoding == ZIP_INT_16B || encoding == ZIP_INT_24B || encoding == ZIP_INT_32B
    || encoding == ZIP_INT_64B || ZIP_INT_IMM_MIN <= encoding <= ZIP_INT_IMM_MIN + 12
  }

  /** No encoding that reads back as the value takes fewer bytes than the one chosen. */
  lemma EncodingShortest(v: int, encoding: Byte, b: seq<Byte>)
    requires LongLong(v) && IntEncoding(encoding) && |b| == IntSize(encoding) && LoadInteger(b, encoding) == v
    ensures IntEncoding(EncodingOf(v)) && IntSize(EncodingOf(v)) <= IntSize(encoding)
  {
    Pow256Values();
    assert Pow256(3) == 0x100_0000;
    FromLEBound(b);
    if encoding == ZIP_INT_24B { assert FromLE([0] + b) == 256 * FromLE(b) by { assert ([0] + b)[1..] == b; } }
    hide FromLE, Pow256;
  }

  lemma {:induction false} FromLEBound(b: seq<Byte>)
    ensures FromLE(b) < Pow256(|b|)
  {
    if b != [] { FromLEBound(b[1..]); }
  }

  // ----- Back-links -----

  /** zipStorePrevEntryLengthLarge. */
  function StoreLarge(len: nat): (b: seq<Byte>)
    ensures |b| == 5
  {
    [ZIP_BIG_PREVLEN] + LE(len, 4)
  }

  /** zipStorePrevEntryLength. */
  function StorePrev(len: nat): seq<Byte> { if len < ZIP_BIG_PREVLEN then [len] else StoreLarge(len) }

  /** The bytes zipStorePrevEntryLength would need. */
  function PrevSize(len: nat): nat { if len < ZIP_BIG_PREVLEN then 1 else 5 }

  /** ZIP_DECODE_PREVLENSIZE. */
  function PrevLenSize(zl: seq<Byte>, p: nat): nat
    requires p < |zl|
  {
    if zl[p] < ZIP_BIG_PREVLEN then 1 else 5
  }

  /** ZIP_DECODE_PREVLEN. */
  function PrevLen(zl: seq<Byte>, p: nat): nat
    requires p < |zl| && p + PrevLenSize(zl, p) <= |zl|
  {
    if PrevLenSize(zl, p) == 1 then zl[p] else FromLE(zl[p + 1..p + 5])
  }

  /** No back-link that reads back as a length takes fewer bytes than the one chosen for it. */
  lemma LinkShortest(zl: seq<Byte>, p: nat)
    requires p < |zl| && p + PrevLenSize(zl, p) <= |zl|
    ensures PrevSize(PrevLen(zl, p)) <= PrevLenSize(zl, p)
  {
    hide FromLE;
  }

  // ----- Lengths -----

  /** zipStoreEntryEncoding for a string of length `rawlen`. */
  function StoreLength(rawlen: nat): (b: seq<Byte>)
    requires rawlen <= UINT32_MAX
    ensures |b| == LengthSize(rawlen)
  {
    if rawlen <= 0x3f then [rawlen]
    else if rawlen <= 0x3fff then [0x40 + rawlen / 256, rawlen % 256]
    else [0x80, rawlen / 0x100_0000, rawlen / 0x1_0000 % 256, rawlen / 256 % 256, rawlen % 256]
  }

  function LengthSize(rawlen: nat): nat { if rawlen <= 0x3f then 1 else if rawlen <= 0x3fff then 2 else 5 }

  /** The type and length ZIP_DECODE_LENGTH finds: encoding, bytes they take, bytes of data. */
  datatype Header = Header(encoding: Byte, lensize: nat, len: nat)
  {
    predicate IsStr() { encoding < 0xc0 }
  }

  predicate LengthReadable(zl: seq<Byte>, p: nat)
  {
    p < |zl| && (0x40 <= zl[p] < 0x80 ==> p + 2 <= |zl|) && (0x80 <= zl[p] < 0xc0 ==> p + 5 <= |zl|)
  }

  /** ZIP_DECODE_LENGTH. */
  function DecodeLength(zl: seq<Byte>, p: nat): Header
    requires LengthReadable(zl, p)
  {
    var b := zl[p];
    if b < 0xc0 then
      var encoding := b / 64 * 64;
      if encoding == 0 then Header(encoding, 1, b % 64)
      else if encoding == 0x40 then Header(encoding, 2, (b as int) % 64 * 256 + zl[p + 1])
      else Header(encoding, 5, (zl[p + 1] as int) * 0x100_0000 + (zl[p + 2] as int) * 0x1_0000
                               + (zl[p + 3] as int) * 256 + zl[p + 4])
    else Header(b, 1, IntSize(b))
  }

  /** No header that reads back as a string's length takes fewer bytes than the one chosen for it. */
  lemma LengthShortest(zl: seq<Byte>, p: nat)
    requires LengthReadable(zl, p) && DecodeLength(zl, p).IsStr()
    ensures LengthSize(DecodeLength(zl, p).len) <= DecodeLength(zl, p).lensize
  {}

  // ----- Entries -----

  /** The bytes of an entry after its back-link. */
  function Body(c: Content): (b: seq<Byte>)
    requires ContentOk(c)
    ensures |b| > 0
  {
    match c
    case Str(s) => StoreLength(|s|) + s
    case Num(v) => [EncodingOf(v)] + SaveInteger(v, EncodingOf(v))
  }

  function Link(e: Entry): (b: seq<Byte>)
    ensures |b| == if e.wide then 5 else 1
  {
    if e.wide then StoreLarge(e.prev) else [e.prev]
  }

  /** The bytes of an entry. */
  function Raw(e: Entry): (b: seq<Byte>)
    ensures |b| == (if e.wide then 5 else 1) + |Body(e.content)|
  {
    Link(e) + Body(e.content)
  }

  function Size(e: Entry): (n: nat)
    ensures n >= 2 && n == |Raw(e)|
  {
    (if e.wide then 5 else 1) + |Body(e.content)|
  }

  /** zipEntry. */
  datatype ZlEntry = ZlEntry(prevrawlensize: nat, prevrawlen: nat, lensize: nat, len: nat, headersize: nat,
                             encoding: Byte)
  {
    predicate IsStr() { encoding < 0xc0 }
  }

  predicate Readable(zl: seq<Byte>, p: nat)
  {
    p < |zl| && p + PrevLenSize(zl, p) <= |zl| && LengthReadable(zl, p + PrevLenSize(zl, p))
  }

  function ReadEntry(zl: seq<Byte>, p: nat): ZlEntry
    requires Readable(zl, p)
  {
    var prevrawlensize := PrevLenSize(zl, p);
    var h := DecodeLength(zl, p + prevrawlensize);
    ZlEntry(prevrawlensize, PrevLen(zl, p), h.lensize, h.len, prevrawlensize + h.lensize, h.encoding)
  }

  /** zipRawEntryLength. */
  function RawEntryLength(zl: seq<Byte>, p: nat): nat
    requires Readable(zl, p)
  {
    var prevlensize := PrevLenSize(zl, p);
    var h := DecodeLength(zl, p + prevlensize);
    prevlensize + h.lensize + h.len
  }

  /** Entry `e` is stored at `p`. */
  predicate StoredAt(zl: seq<Byte>, p: nat, e: Entry)
  {
    p + Size(e) <= |zl| && zl[p..p + Size(e)] == Raw(e)
  }

  lemma LengthRoundTrip(zl: seq<Byte>, p: nat, rawlen: nat)
    requires rawlen <= UINT32_MAX && p + LengthSize(rawlen) <= |zl|
    requires zl[p..p + LengthSize(rawlen)] == StoreLength(rawlen)
    ensures LengthReadable(zl, p)
    ensures var h := DecodeLength(zl, p); h.IsStr() && h.lensize == LengthSize(rawlen) && h.len == rawlen
  {
    var n := LengthSize(rawlen);
    assert zl[p] == StoreLength(rawlen)[0];
    if n == 2 {
      assert zl[p + 1] == StoreLength(rawlen)[1];
    } else if n == 5 {
      assert zl[p + 1] == StoreLength(rawlen)[1] && zl[p + 2] == StoreLength(rawlen)[2];
      assert zl[p + 3] == StoreLength(rawlen)[3] && zl[p + 4] == StoreLength(rawlen)[4];
      FourBytes(rawlen);
    }
  }

  lemma FourBytes(n: nat)
    requires n <= UINT32_MAX
    ensures n / 0x100_0000 * 0x100_0000 + n / 0x1_0000 % 256 * 0x1_0000 + n / 256 % 256 * 256 + n % 256 == n
  {
    var a, b, c := n / 256, n / 0x1_0000, n / 0x100_0000;
    assert n == a * 256 + n % 256 && a == b * 256 + a % 256 && b == c * 256 + b % 256;
  }

  /** Reading a stored back-link. */
  lemma LinkRead(zl: seq<Byte>, p: nat, e: Entry)
    requires p + |Link(e)| <= |zl| && zl[p..p + |Link(e)|] == Link(e)
    ensures zl[p] != ZIP_END && PrevLenSize(zl, p) == |Link(e)| && PrevLen(zl, p) == e.prev
  {
    assert zl[p] == zl[p..p + |Link(e)|][0];
    if e.wide {
      assert zl[p + 1..p + 5] == zl[p..p + 5][1..];
      assert StoreLarge(e.prev)[1..] == LE(e.prev, 4);
      Pow256Values();
      LERoundTrip(e.prev, 4);
    }
  }

  lemma StrRead(zl: seq<Byte>, p: nat, s: seq<Byte>)
    requires ContentOk(Str(s)) && p + |Body(Str(s))| <= |zl| && zl[p..p + |Body(Str(s))|] == Body(Str(s))
    ensures LengthReadable(zl, p)
    ensures var h := DecodeLength(zl, p);
            && h.lensize + h.len == |Body(Str(s))| && h.IsStr() && zl[p + h.lensize..p + h.lensize + h.len] == s
  {
    hide StoreLength, LengthSize, DecodeLength, LengthReadable;
    var n, b := LengthSize(|s|), zl[p..p + |Body(Str(s))|];
    assert zl[p..p + n] == b[..n] == StoreLength(|s|);
    LengthRoundTrip(zl, p, |s|);
    assert zl[p + n..p + n + |s|] == b[n..] == s;
  }

  lemma NumRead(zl: seq<Byte>, p: nat, v: int)
    requires ContentOk(Num(v)) && p + |Body(Num(v))| <= |zl| && zl[p..p + |Body(Num(v))|] == Body(Num(v))
    ensures LengthReadable(zl, p)
    ensures var h := DecodeLength(zl, p);
            && h.lensize + h.len == |Body(Num(v))| && !h.IsStr() && h.len == IntSize(h.encoding)
            && LoadInteger(zl[p + h.lensize..p + h.lensize + h.len], h.encoding) == v
  {
    IntegerRoundTrip(v);
    hide LoadInteger, SaveInteger, IntSize;
    var b := zl[p..p + |Body(Num(v))|];
    assert zl[p] == b[0] == EncodingOf(v) && EncodingOf(v) >= 0xc0;
    assert zl[p + 1..p + |b|] == b[1..] == SaveInteger(v, EncodingOf(v));
  }

  /** What is read of the body of a stored entry. */
  lemma BodyRead(zl: seq<Byte>, p: nat, c: Content)
    requires ContentOk(c) && p + |Body(c)| <= |zl| && zl[p..p + |Body(c)|] == Body(c)
    ensures LengthReadable(zl, p)
    ensures var h := DecodeLength(zl, p);
            && h.lensize + h.len == |Body(c)| && (h.IsStr() <==> c.Str?)
            && (c.Str? ==> zl[p + h.lensize..p + h.lensize + h.len] == c.s)
            && (c.Num? ==>
                h.len == IntSize(h.encoding)
                  && LoadInteger(zl[p + h.lensize..p + h.lensize + h.len], h.encoding) == c.v)
  {
    hide *;
    match c
    case Str(s) => StrRead(zl, p, s);
    case Num(v) => NumRead(zl, p, v);
  }

  /** zipEntry reads a stored entry. */
  lemma EntryRead(zl: seq<Byte>, p: nat, e: Entry)
    requires StoredAt(zl, p, e)
    ensures p + 2 <= |zl| && zl[p] != ZIP_END && Readable(zl, p) && RawEntryLength(zl, p) == Size(e)
    ensures var z := ReadEntry(zl, p);
            && z.prevrawlensize == (if e.wide then 5 else 1) && z.prevrawlen == e.prev
               && z.headersize + z.len == Size(e)
            && (z.IsStr() <==> e.content.Str?)
            && (e.content.Str? ==>
                z.len == |e.content.s| && zl[p + z.headersize..p + z.headersize + z.len] == e.content.s)
            && (e.content.Num? ==> z.len == IntSize(z.encoding)
                                   && LoadInteger(zl[p + z.headersize..p + z.headersize + z.len], z.encoding)
                                      == e.content.v)
  {
    hide Body, Link, LoadInteger, DecodeLength, IntSize, PrevLen, PrevLenSize, LengthReadable;
    var n, b := |Link(e)|, zl[p..p + Size(e)];
    assert zl[p..p + n] == b[..n] == Link(e);
    assert zl[p + n..p + n + |Body(e.content)|] == b[n..] == Body(e.content);
    LinkRead(zl, p, e);
    BodyRead(zl, p + n, e.content);
  }
}
