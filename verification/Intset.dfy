/** The intset of intset.c: sorted integers in slots of 2, 4 or 8 bytes, moved and widened in
    place. */
module Intset {
  import opened Bytes
  import opened Endian
  import opened Memory
  import opened Seqs

  const ENC_INT16: nat := 2
  const ENC_INT32: nat := 4
  const ENC_INT64: nat := 8

  predicate Encoding(enc: nat) { enc == ENC_INT16 || enc == ENC_INT32 || enc == ENC_INT64 }

  predicate Int64(v: int) { -0x8000_0000_0000_0000 <= v <= 0x7FFF_FFFF_FFFF_FFFF }

  /** _intsetValueEncoding. */
  function ValueEncoding(v: int): nat
  {
    if v < -0x8000_0000 || v > 0x7FFF_FFFF then ENC_INT64
    else if v < -0x8000 || v > 0x7FFF then ENC_INT32
    else ENC_INT16
  }

  /** The value fits slots of this many bytes. */
  predicate Fits(v: int, enc: nat) { -Half(enc) <= v < Half(enc) }

  /** The encoding of a value is the narrowest it fits. */
  lemma NarrowestEncoding(v: int, enc: nat)
    requires Int64(v) && Encoding(enc)
    ensures Encoding(ValueEncoding(v)) && (Fits(v, enc) <==> ValueEncoding(v) <= enc)
  {
    Pow256Values();
  }

  // ----- Slots -----

  function Off(pos: nat, enc: nat): nat { pos * enc }

  lemma OffStep(i: nat, enc: nat)
    ensures Off(i + 1, enc) == Off(i, enc) + enc && Off(0, enc) == 0
  {}

  lemma OffOrder(i: nat, j: nat, enc: nat)
    requires i < j
    ensures Off(i, enc) + enc <= Off(j, enc)
  {
    assert i + 1 <= j;
    assert (i + 1) * enc <= j * enc;
  }

  /** Wider slots begin no earlier. */
  lemma OffWider(i: nat, enc: nat, wide: nat)
    requires enc <= wide
    ensures Off(i, enc) <= Off(i, wide)
  {
    assert i * enc <= i * wide;
  }

  function Slot(b: seq<Byte>, pos: nat, enc: nat): seq<Byte>
    requires Off(pos, enc) + enc <= |b|
  {
    b[Off(pos, enc)..Off(pos, enc) + enc]
  }

  /** _intsetGetEncoded. */
  function GetEncoded(b: seq<Byte>, pos: nat, enc: nat): int
    requires Off(pos, enc) + enc <= |b|
  {
    Unwrap(FromLE(Slot(b, pos, enc)), enc)
  }

  /** _intsetSet. */
  function SetEncoded(b: seq<Byte>, pos: nat, v: int, enc: nat): (r: seq<Byte>)
    requires Off(pos, enc) + enc <= |b| && Wrap(v, enc) >= 0
    ensures |r| == |b|
  {
    Write(b, Off(pos, enc), LE(Wrap(v, enc), enc))
  }

  lemma FitsIs(v: int)
    requires Int64(v)
    ensures var enc := ValueEncoding(v); Encoding(enc) && Fits(v, enc)
    ensures forall enc: nat :: Encoding(enc) && enc >= ValueEncoding(v) ==> Fits(v, enc)
    ensures forall enc: nat :: Encoding(enc) && enc < ValueEncoding(v) ==> !Fits(v, enc)
  {
    Pow256Values();
    hide Pow256;
  }

  lemma SetGet(b: seq<Byte>, pos: nat, v: int, enc: nat)
    requires Encoding(enc) && Off(pos, enc) + enc <= |b| && Fits(v, enc)
    ensures Wrap(v, enc) >= 0 && GetEncoded(SetEncoded(b, pos, v, enc), pos, enc) == v
  {
    HalfIs(enc);
    SignedRoundTrip(v, enc);
    hide Off, LE, FromLE, Wrap, Unwrap;
    var r := SetEncoded(b, pos, v, enc);
    assert Slot(r, pos, enc) == LE(Wrap(v, enc), enc);
  }

  lemma HalfIs(enc: nat)
    requires Encoding(enc)
    ensures enc in {1, 2, 4, 8} && Half(enc) > 0 && (enc == 2 || enc == 4 || enc == 8)
  {
    Pow256Values();
    hide Pow256;
  }

  /** A write leaves the slots before and behind it alone, whatever their width. */
  lemma SetElsewhere(b: seq<Byte>, pos: nat, v: int, enc: nat, i: nat, e: nat)
    requires Off(pos, enc) + enc <= |b| && Wrap(v, enc) >= 0
    requires Off(i, e) + e <= |b| && (Off(i, e) + e <= Off(pos, enc) || Off(pos, enc) + enc <= Off(i, e))
    ensures Slot(SetEncoded(b, pos, v, enc), i, e) == Slot(b, i, e)
  {
    hide Off, LE, Wrap;
  }

  lemma GetOfSlot(b: seq<Byte>, c: seq<Byte>, i: nat, j: nat, enc: nat)
    requires Off(i, enc) + enc <= |b| && Off(j, enc) + enc <= |c| && Slot(b, i, enc) == Slot(c, j, enc)
    ensures GetEncoded(b, i, enc) == GetEncoded(c, j, enc)
  {
    hide Off, FromLE, Unwrap;
  }

  lemma Inside(i: nat, n: nat, enc: nat)
    requires i < n
    ensures Off(i, enc) + enc <= Off(n, enc)
  {
    OffOrder(i, n, enc);
  }

  /** The values stored in the first `n` slots. */
  ghost function Vals(b: seq<Byte>, n: nat, enc: nat): (vs: seq<int>)
    requires Off(n, enc) <= |b|
    ensures |vs| == n
    ensures forall i :: 0 <= i < n ==> Off(i, enc) + enc <= |b| && vs[i] == GetEncoded(b, i, enc)
  {
    hide Off, GetEncoded;
    forall i | 0 <= i < n ensures Off(i, enc) + enc <= |b| { Inside(i, n, enc); }
    seq(n, i requires 0 <= i < n => GetEncoded(b, i, enc))
  }

  ghost predicate Sorted(vs: seq<int>) { forall i, j :: 0 <= i < j < |vs| ==> vs[i] < vs[j] }

  // ----- Widening -----

  /** Slots from `i` on are in their wide places, `p` further on; those before are still the
      narrow ones of `b0`. */
  ghost predicate Widened(b: seq<Byte>, b0: seq<Byte>, n: nat, i: nat, p: nat, c: nat, e: nat)
    requires Off(n, c) <= |b0| && Off(n + 1, e) <= |b| && i <= n && p <= 1 && c <= e
  {
    && (forall j :: i <= j < n ==> WideAt(b, b0, n, j, p, c, e))
    && forall j :: 0 <= j < i ==> NarrowAt(b, b0, n, j, c, e)
  }

  predicate WideAt(b: seq<Byte>, b0: seq<Byte>, n: nat, j: nat, p: nat, c: nat, e: nat)
    requires Off(n, c) <= |b0| && Off(n + 1, e) <= |b| && j < n && p <= 1
  {
    Inside(j, n, c);
    Inside(j + p, n + 1, e);
    GetEncoded(b, j + p, e) == GetEncoded(b0, j, c)
  }

  predicate NarrowAt(b: seq<Byte>, b0: seq<Byte>, n: nat, j: nat, c: nat, e: nat)
    requires Off(n, c) <= |b0| && Off(n + 1, e) <= |b| && j < n && c <= e
  {
    Inside(j, n, c);
    OffWider(n, c, e);
    OffStep(n, e);
    Slot(b, j, c) == Slot(b0, j, c)
  }

  /** Where the slots of a step are. */
  lemma WidenRoom(n: nat, k: nat, p: nat, c: nat, e: nat)
    requires k < n && p <= 1 && c <= e
    ensures Off(k, c) + c <= Off(n, c) <= Off(n + 1, e) && Off(k + p, e) + e <= Off(n + 1, e)
    ensures Off(k, c) <= Off(k + p, e)
    ensures forall j {:trigger Off(j, c)} :: 0 <= j < k ==> Off(j, c) + c <= Off(k + p, e)
  {
    Inside(k, n, c);
    OffWider(n, c, e);
    OffStep(n, e);
    Inside(k + p, n + 1, e);
    OffWider(k, c, e);
    if p > 0 { OffOrder(k, k + p, e); }
    forall j | 0 <= j < k ensures Off(j, c) + c <= Off(k + p, e) { OffOrder(j, k, c); }
  }

  lemma NarrowFacts(b: seq<Byte>, b0: seq<Byte>, n: nat, j: nat, c: nat, e: nat)
    requires Off(n, c) <= |b0| && Off(n + 1, e) <= |b| && j < n && c <= e
    ensures Off(j, c) + c <= |b0| && Off(j, c) + c <= |b|
    ensures NarrowAt(b, b0, n, j, c, e) <==> Slot(b, j, c) == Slot(b0, j, c)
  {
    WidenRoom(n, j, 0, c, e);
    hide Off, Slot;
  }

  lemma WideFacts(b: seq<Byte>, b0: seq<Byte>, n: nat, j: nat, p: nat, c: nat, e: nat)
    requires Off(n, c) <= |b0| && Off(n + 1, e) <= |b| && j < n && p <= 1 && c <= e
    ensures Off(j, c) + c <= |b0| && Off(j + p, e) + e <= |b|
    ensures WideAt(b, b0, n, j, p, c, e) <==> GetEncoded(b, j + p, e) == GetEncoded(b0, j, c)
  {
    WidenRoom(n, j, p, c, e);
    hide Off, GetEncoded;
  }

  lemma WidenedAt(b: seq<Byte>, b0: seq<Byte>, n: nat, i: nat, p: nat, c: nat, e: nat, j: nat)
    requires Off(n, c) <= |b0| && Off(n + 1, e) <= |b| && i <= n && p <= 1 && c <= e && j < n
    requires Widened(b, b0, n, i, p, c, e)
    ensures if i <= j then WideAt(b, b0, n, j, p, c, e) else NarrowAt(b, b0, n, j, c, e)
  {
    hide Off, WideAt, NarrowAt;
  }

  lemma WidenedIs(b: seq<Byte>, b0: seq<Byte>, n: nat, i: nat, p: nat, c: nat, e: nat)
    requires Off(n, c) <= |b0| && Off(n + 1, e) <= |b| && i <= n && p <= 1 && c <= e
    requires forall j :: i <= j < n ==> WideAt(b, b0, n, j, p, c, e)
    requires forall j :: 0 <= j < i ==> NarrowAt(b, b0, n, j, c, e)
    ensures Widened(b, b0, n, i, p, c, e)
  {
    hide Off, WideAt, NarrowAt;
  }

  /** One step of the upgrade, from the back: the wide write does not touch a narrow slot that
      is still to be read. */
  lemma WidenStep(b: seq<Byte>, b0: seq<Byte>, n: nat, i: nat, p: nat, c: nat, e: nat)
    requires Encoding(c) && Encoding(e) && c < e && Off(n, c) <= |b0| && Off(n + 1, e) <= |b| && 0 < i <= n && p <= 1
    requires Widened(b, b0, n, i, p, c, e)
    ensures Off(i - 1, c) + c <= |b| && Off(i - 1 + p, e) + e <= |b|
    ensures var v := GetEncoded(b, i - 1, c);
            && Fits(v, e) && Wrap(v, e) >= 0 && Widened(SetEncoded(b, i - 1 + p, v, e), b0, n, i - 1, p, c, e)
  {
    hide *;
    var k := i - 1;
    WidenRoom(n, k, p, c, e);
    WidenedAt(b, b0, n, i, p, c, e, k);
    NarrowFacts(b, b0, n, k, c, e);
    GetOfSlot(b, b0, k, k, c);
    var v := GetEncoded(b, k, c);
    GetFits(b, k, c, e);
    SetGet(b, k + p, v, e);
    var r := SetEncoded(b, k + p, v, e);
    forall j | k <= j < n ensures WideAt(r, b0, n, j, p, c, e) {
      WideFacts(r, b0, n, j, p, c, e);
      if j > k {
        OffOrder(k + p, j + p, e);
        WidenedAt(b, b0, n, i, p, c, e, j);
        WideFacts(b, b0, n, j, p, c, e);
        SetElsewhere(b, k + p, v, e, j + p, e);
        GetOfSlot(r, b, j + p, j + p, e);
      }
    }
    forall j | 0 <= j < k ensures NarrowAt(r, b0, n, j, c, e) {
      NarrowFacts(r, b0, n, j, c, e);
      NarrowFacts(b, b0, n, j, c, e);
      WidenedAt(b, b0, n, i, p, c, e, j);
      SetElsewhere(b, k + p, v, e, j, c);
    }
    WidenedIs(r, b0, n, k, p, c, e);
  }

  /** A value read from a narrow slot fits a wider one. */
  lemma GetFits(b: seq<Byte>, i: nat, c: nat, e: nat)
    requires Encoding(c) && Encoding(e) && c <= e && Off(i, c) + c <= |b|
    ensures Fits(GetEncoded(b, i, c), c) && Fits(GetEncoded(b, i, c), e)
  {
    Pow256Values();
    FromLEBound(Slot(b, i, c));
    hide Pow256, FromLE;
  }

  lemma {:induction false} FromLEBound(b: seq<Byte>)
    ensures FromLE(b) < Pow256(|b|)
  {
    if b != [] { FromLEBound(b[1..]); }
  }

  // ----- Sorted sequences -----

  function SetOf(vs: seq<int>): set<int> { set v | v in vs }

  lemma SetAt(vs: seq<int>, i: nat)
    requires i < |vs|
    ensures vs[i] in SetOf(vs) && SetOf(vs) + {vs[i]} == SetOf(vs)
  {}

  lemma SetLacks(vs: seq<int>, v: int)
    ensures v !in vs ==> v !in SetOf(vs) && SetOf(vs) - {v} == SetOf(vs)
  {}

  lemma SortedWith(vs: seq<int>, pos: nat, v: int)
    requires Sorted(vs) && pos <= |vs| && (forall i :: 0 <= i < pos ==> vs[i] < v)
             && forall i :: pos <= i < |vs| ==> v < vs[i]
    ensures Sorted(With(vs, pos, v)) && v !in vs && SetOf(With(vs, pos, v)) == SetOf(vs) + {v}
  {
    var ws := With(vs, pos, v);
    hide With;
    assert ws[pos] == v;
    forall w | w in vs ensures w in ws {
      var i :| 0 <= i < |vs| && vs[i] == w;
      assert ws[if i < pos then i else i + 1] == w;
    }
  }

  lemma SortedWithout(vs: seq<int>, pos: nat)
    requires Sorted(vs) && pos < |vs|
    ensures Sorted(Without(vs, pos)) && SetOf(Without(vs, pos)) == SetOf(vs) - {vs[pos]}
  {
    var ws := Without(vs, pos);
    hide Without;
    forall w | w in vs && w != vs[pos] ensures w in ws {
      var i :| 0 <= i < |vs| && vs[i] == w;
      assert ws[if i < pos then i else i - 1] == w;
    }
  }

  // ----- Moving the tail -----

  /** Where the bytes of a moved stretch come from. */
  lemma Moved(b: seq<Byte>, to: nat, from: nat, n: nat, x: nat, len: nat)
    requires to + n <= |b| && from + n <= |b| && x + len <= |b|
    ensures to <= x && x + len <= to + n ==>
            MemMove(b, to, from, n)[x..x + len] == b[x - to + from..x - to + from + len]
    ensures x + len <= to || to + n <= x ==> MemMove(b, to, from, n)[x..x + len] == b[x..x + len]
  {
    var m := MemMove(b, to, from, n);
    if to <= x && x + len <= to + n {
      assert m[to..to + n] == b[from..from + n];
      SubSlice(m, to, n, x - to, len);
      SubSlice(b, from, n, x - to, len);
    }
  }

  lemma SubSlice(s: seq<Byte>, at: nat, n: nat, i: nat, len: nat)
    requires at + n <= |s| && i + len <= n
    ensures s[at..at + n][i..i + len] == s[at + i..at + i + len]
  {
    var a, b := s[at..at + n][i..i + len], s[at + i..at + i + len];
    forall k | 0 <= k < len ensures a[k] == b[k] {
      assert a[k] == s[at..at + n][i + k] == s[at + i + k];
    }
  }

  /** The bytes intsetMoveTail moves. */
  function TailBytes(length: nat, from: nat, enc: nat): nat
    requires from <= length
  {
    (length - from) * enc
  }

  lemma TailRoom(length: nat, from: nat, enc: nat)
    requires from <= length
    ensures Off(from, enc) + TailBytes(length, from, enc) == Off(length, enc)
    ensures Off(from + 1, enc) + TailBytes(length, from, enc) == Off(length + 1, enc)
    ensures from > 0 ==> Off(from - 1, enc) + TailBytes(length, from, enc) == Off(length - 1, enc)
  {
    assert (length - from) * enc + from * enc == length * enc;
    OffStep(from, enc);
    OffStep(length, enc);
    if from > 0 {
      OffStep(from - 1, enc);
      OffStep(length - 1, enc);
    }
  }

  /** The slots from `from` to the last of `length` are now those from `to` on; every other slot
      of the block holds what it held. */
  ghost predicate TailMoved(b: seq<Byte>, m: seq<Byte>, length: nat, from: nat, to: nat, enc: nat)
    requires from <= length
  {
    && |m| == |b|
    && forall j: nat :: Off(j, enc) + enc <= |b| ==> SameValue(b, Source(length, from, to, j), m, j, enc)
  }

  function Source(length: nat, from: nat, to: nat, j: nat): nat
    requires from <= length
  {
    if to <= j < to + (length - from) then j - to + from else j
  }

  predicate SameValue(b: seq<Byte>, i: nat, m: seq<Byte>, j: nat, enc: nat)
  {
    && Off(i, enc) + enc <= |b| && Off(j, enc) + enc <= |m|
    && GetEncoded(m, j, enc) == GetEncoded(b, i, enc)
  }

  lemma SlotMoved(b: seq<Byte>, length: nat, from: nat, to: nat, enc: nat, j: nat)
    requires from <= length && Off(length, enc) <= |b| && Off(to + (length - from), enc) <= |b|
    requires Off(j, enc) + enc <= |b|
    ensures Off(from, enc) + TailBytes(length, from, enc) <= |b| && Off(to, enc) + TailBytes(length, from, enc) <= |b|
    ensures var m := MemMove(b, Off(to, enc), Off(from, enc), TailBytes(length, from, enc));
            SameValue(b, Source(length, from, to, j), m, j, enc)
  {
    hide Off, MemMove, TailBytes, FromLE, Unwrap;
    var end, i := to + (length - from), Source(length, from, to, j);
    TailRoom(length, from, enc);
    TailEnd(length, from, to, enc);
    if to <= j < end {
      OffMoved(to, j, from, enc);
      Inside(j, end, enc);
      Inside(i, length, enc);
    } else if j < to {
      Inside(j, to, enc);
    } else if end < j {
      OffOrder(end, j, enc);
    }
    Moved(b, Off(to, enc), Off(from, enc), TailBytes(length, from, enc), Off(j, enc), enc);
  }

  lemma TailEnd(length: nat, from: nat, to: nat, enc: nat)
    requires from <= length
    ensures Off(to, enc) + TailBytes(length, from, enc) == Off(to + (length - from), enc)
  {
    assert to * enc + (length - from) * enc == (to + (length - from)) * enc;
  }

  lemma OffMoved(to: nat, j: nat, from: nat, enc: nat)
    requires to <= j
    ensures Off(to, enc) <= Off(j, enc) && Off(j - to + from, enc) == Off(j, enc) - Off(to, enc) + Off(from, enc)
  {
    assert (j - to + from) * enc == j * enc - to * enc + from * enc;
    assert j * enc == to * enc + (j - to) * enc;
  }

  lemma MovedTail(b: seq<Byte>, length: nat, from: nat, to: nat, enc: nat)
    requires from <= length && Off(length, enc) <= |b| && Off(to + (length - from), enc) <= |b|
    ensures Off(from, enc) + TailBytes(length, from, enc) <= |b| && Off(to, enc) + TailBytes(length, from, enc) <= |b|
    ensures TailMoved(b, MemMove(b, Off(to, enc), Off(from, enc), TailBytes(length, from, enc)), length, from, to, enc)
  {
    TailRoom(length, from, enc);
    TailEnd(length, from, to, enc);
    hide Off, MemMove, TailBytes, SameValue, Source;
    var m := MemMove(b, Off(to, enc), Off(from, enc), TailBytes(length, from, enc));
    forall j: nat | Off(j, enc) + enc <= |b| ensures SameValue(b, Source(length, from, to, j), m, j, enc) {
      SlotMoved(b, length, from, to, enc, j);
    }
  }

  lemma TailMovedAt(b: seq<Byte>, m: seq<Byte>, length: nat, from: nat, to: nat, enc: nat, j: nat)
    requires from <= length && TailMoved(b, m, length, from, to, enc) && Off(j, enc) + enc <= |b|
    ensures SameValue(b, Source(length, from, to, j), m, j, enc)
  {
    hide Off, SameValue, Source;
  }

  lemma ValueMoved(b: seq<Byte>, m: seq<Byte>, length: nat, from: nat, to: nat, enc: nat, j: nat, i: nat)
    requires from <= length && TailMoved(b, m, length, from, to, enc) && Off(j, enc) + enc <= |b|
    requires if to <= j < to + (length - from) then i + to == j + from else i == j
    ensures |m| == |b| && Off(i, enc) + enc <= |b| && GetEncoded(m, j, enc) == GetEncoded(b, i, enc)
  {
    hide Off, GetEncoded, TailMoved;
    MovedSame(b, m, length, from, to, enc);
    TailMovedAt(b, m, length, from, to, enc, j);
  }

  lemma MovedSame(b: seq<Byte>, m: seq<Byte>, length: nat, from: nat, to: nat, enc: nat)
    requires from <= length && TailMoved(b, m, length, from, to, enc)
    ensures |m| == |b|
  {}

  lemma GetPrefix(b: seq<Byte>, c: seq<Byte>, i: nat, enc: nat)
    requires b <= c && Off(i, enc) + enc <= |b|
    ensures GetEncoded(c, i, enc) == GetEncoded(b, i, enc)
  {
    hide Off, FromLE, Unwrap;
    assert Slot(c, i, enc) == Slot(b, i, enc);
  }

  lemma ValsAt(b: seq<Byte>, n: nat, enc: nat, i: nat)
    requires Off(n, enc) <= |b| && i < n
    ensures Off(i, enc) + enc <= |b| && Vals(b, n, enc)[i] == GetEncoded(b, i, enc)
  {
    hide *;
    Inside(i, n, enc);
    var vs := Vals(b, n, enc);
  }

  /** A block made longer holds the same values. */
  lemma ValsPrefix(b: seq<Byte>, c: seq<Byte>, n: nat, enc: nat)
    requires b <= c && Off(n, enc) <= |b|
    ensures Vals(c, n, enc) == Vals(b, n, enc)
  {
    hide Off, Vals, GetEncoded;
    forall i | 0 <= i < n ensures Vals(c, n, enc)[i] == Vals(b, n, enc)[i] {
      Inside(i, n, enc);
      GetPrefix(b, c, i, enc);
    }
  }

  /** Opening slot `pos` and writing it puts the value into the sequence. */
  lemma ValsInserted(b: seq<Byte>, m: seq<Byte>, n: nat, pos: nat, v: int, enc: nat)
    requires Encoding(enc) && Off(n + 1, enc) == |b| && pos <= n && Fits(v, enc)
    requires if pos < n then TailMoved(b, m, n, pos, pos + 1, enc) else m == b
    ensures Off(n, enc) <= |b| && |m| == |b| && Off(pos, enc) + enc <= |m| && Wrap(v, enc) >= 0
    ensures Vals(SetEncoded(m, pos, v, enc), n + 1, enc) == With(Vals(b, n, enc), pos, v)
  {
    MovedSize(b, m, n, pos, enc);
    hide *;
    OffStep(n, enc);
    Inside(pos, n + 1, enc);
    SetGet(m, pos, v, enc);
    var r := SetEncoded(m, pos, v, enc);
    var vs, ws := Vals(b, n, enc), With(Vals(b, n, enc), pos, v);
    forall j | 0 <= j < n + 1 ensures Vals(r, n + 1, enc)[j] == ws[j] {
      ValsAt(r, n + 1, enc, j);
      if j != pos {
        if j < pos { OffOrder(j, pos, enc); } else { OffOrder(pos, j, enc); }
        SetElsewhere(m, pos, v, enc, j, enc);
        GetOfSlot(r, m, j, j, enc);
        if pos < n { ValueMoved(b, m, n, pos, pos + 1, enc, j, if j < pos then j else j - 1); }
        ValsAt(b, n, enc, if j < pos then j else j - 1);
      }
    }
  }

  lemma MovedSize(b: seq<Byte>, m: seq<Byte>, n: nat, pos: nat, enc: nat)
    requires pos <= n && if pos < n then TailMoved(b, m, n, pos, pos + 1, enc) else m == b
    ensures |m| == |b|
  {}

  /** Moving the tail down over slot `pos` takes its value out. */
  lemma ValsRemoved(b: seq<Byte>, m: seq<Byte>, n: nat, pos: nat, enc: nat)
    requires Off(n, enc) == |b| && pos < n
    requires if pos < n - 1 then TailMoved(b, m, n, pos + 1, pos, enc) else m == b
    ensures Off(n - 1, enc) <= |b| == |m|
    ensures Vals(m[..Off(n - 1, enc)], n - 1, enc) == Without(Vals(b, n, enc), pos)
  {
    assert |m| == |b|;
    hide *;
    OffStep(n - 1, enc);
    var r, ws := m[..Off(n - 1, enc)], Without(Vals(b, n, enc), pos);
    forall j | 0 <= j < n - 1 ensures Vals(r, n - 1, enc)[j] == ws[j] {
      ValsAt(r, n - 1, enc, j);
      Inside(j, n - 1, enc);
      GetPrefix(r, m, j, enc);
      if pos < n - 1 { ValueMoved(b, m, n, pos + 1, pos, enc, j, if j < pos then j else j + 1); }
      ValsAt(b, n, enc, if j < pos then j else j + 1);
    }
  }

  class Intset {
    var encoding: nat
    var length: nat
    var contents: seq<Byte>

    ghost predicate Valid()
      reads this
    {
      Encoding(encoding) && |contents| == Off(length, encoding) && Sorted(V())
    }

    /** The members in order. */
    ghost function V(): (vs: seq<int>)
      reads this
    {
      if Off(length, encoding) <= |contents| then Vals(contents, length, encoding) else []
    }

    /** The set the intset stands for. */
    ghost function Members(): set<int>
      reads this
    {
      SetOf(V())
    }

    constructor ()
      ensures Valid() && Members() == {} && encoding == 2
    {
      encoding, length, contents := ENC_INT16, 0, [];
    }

    lemma Parts()
      requires Valid()
      ensures Encoding(encoding) && |contents| == Off(length, encoding) && Sorted(V())
      ensures V() == Vals(contents, length, encoding)
      ensures |V()| == length && Members() == SetOf(V())
    {
      hide Sorted, Vals, Off;
    }

    lemma IsValid()
      requires Encoding(encoding) && |contents| == Off(length, encoding) && Sorted(Vals(contents, length, encoding))
      ensures Valid() && V() == Vals(contents, length, encoding) && Members() == SetOf(V())
    {
      hide Sorted, Vals, Off;
    }

    /** _intsetGet. */
    method Get(pos: nat) returns (v: int)
      requires Valid() && pos < length
      ensures v == V()[pos]
    {
      hide *;
      Parts();
      ValsAt(contents, length, encoding, pos);
      v := GetEncoded(contents, pos, encoding);
    }

    /** intsetResize: what memory is added holds is arbitrary. */
    method Resize(len: nat)
      requires Encoding(encoding)
      modifies this`contents
      ensures |contents| == Off(len, encoding)
      ensures Off(len, encoding) >= |old(contents)| ==> old(contents) <= contents
      ensures Off(len, encoding) <= |old(contents)| ==> contents == old(contents)[..Off(len, encoding)]
    {
      hide *;
      var size := Off(len, encoding);
      var memory := new Byte[size];
      contents := if size <= |contents| then contents[..size] else contents + memory[|contents|..];
    }

    /** intsetSearch: the position of the value, or where it could be inserted. */
    method Search(value: int) returns (found: bool, pos: nat)
      requires Valid()
      ensures pos <= length == |V()| && (found ==> pos < length && V()[pos] == value)
      ensures !found ==>
              (forall i :: 0 <= i < pos ==> V()[i] < value) && forall i :: pos <= i < length ==> value < V()[i]
    {
      hide *;
      Parts();
      SortedIs(V());
      if length == 0 { return false, 0; }
      var last := Get(length - 1);
      if value > last { return false, length; }
      var first := Get(0);
      if value < first { return false, 0; }
      var min: int, max: int, mid: int, cur := 0, length - 1, -1, -1;
      while max >= min
        invariant 0 <= min <= length && -1 <= max < length && min <= max + 1
        invariant forall i :: 0 <= i < min ==> V()[i] < value
        invariant forall i :: max < i < length ==> value < V()[i]
        invariant (min == 0 && max == length - 1) || cur != value
      {
        mid := (min + max) / 2;
        cur := Get(mid);
        if value > cur {
          min := mid + 1;
        } else if value < cur {
          max := mid - 1;
        } else {
          break;
        }
      }
      if value == cur { return true, mid; }
      return false, min;
    }

    /** intsetUpgradeAndAdd: every value moves to a wider slot, from the back; the new one, out
        of the range of all of them, goes to the front or the end. */
    method UpgradeAndAdd(value: int)
      requires Valid() && Int64(value) && ValueEncoding(value) > encoding
      modifies this
      ensures Valid() && V() == if value < 0 then [value] + old(V()) else old(V()) + [value]
      ensures encoding == ValueEncoding(value)
      ensures value !in old(V()) && value !in old(Members()) && Members() == old(Members()) + {value}
    {
      hide *;
      Parts();
      FitsIs(value);
      EncodingIs(ValueEncoding(value));
      EncodingIs(encoding);
      ghost var vs, b0 := V(), contents;
      OutOfRange(contents, length, encoding, value);
      var curenc, newenc, i: nat := encoding, ValueEncoding(value), length;
      var prepend: nat := if value < 0 then 1 else 0;
      encoding := newenc;
      Wider(length, curenc, newenc);
      Resize(length + 1);
      WidenedNone(contents, b0, length, prepend, curenc, newenc);
      while i > 0
        invariant i <= length == old(length) && encoding == newenc && |contents| == Off(length + 1, newenc)
        invariant Widened(contents, b0, length, i, prepend, curenc, newenc)
      {
        i := i - 1;
        WidenStep(contents, b0, length, i + 1, prepend, curenc, newenc);
        contents := SetEncoded(contents, i + prepend, GetEncoded(contents, i, curenc), newenc);
      }
      WidenDone(contents, b0, length, prepend, curenc, newenc, value);
      contents := SetEncoded(contents, if prepend > 0 then 0 else length, value, newenc);
      length := length + 1;
      EndsSorted(vs, value, prepend > 0);
      SetLacks(vs, value);
      IsValid();
    }

    /** intsetMoveTail. */
    method MoveTail(from: nat, to: nat)
      requires from <= length && Off(length, encoding) <= |contents|
      requires Off(to + (length - from), encoding) <= |contents|
      modifies this`contents
      ensures TailMoved(old(contents), contents, length, from, to, encoding)
    {
      hide *;
      MovedTail(contents, length, from, to, encoding);
      contents := MemMove(contents, Off(to, encoding), Off(from, encoding), TailBytes(length, from, encoding));
    }

    /** intsetAdd. */
    method Add(value: int) returns (success: bool)
      requires Valid() && Int64(value)
      modifies this
      ensures Valid() && (success <==> value !in old(Members())) && Members() == old(Members()) + {value}
      ensures encoding == if ValueEncoding(value) > old(encoding) then ValueEncoding(value) else old(encoding)
    {
      hide *;
      Parts();
      FitsIs(value);
      if ValueEncoding(value) > encoding {
        SetLacks(V(), value);
        UpgradeAndAdd(value);
        return true;
      }
      var found, pos := Search(value);
      if found {
        SetAt(V(), pos);
        return false;
      }
      ghost var vs, b0 := V(), contents;
      NotThere(vs, pos, value);
      SetLacks(vs, value);
      OffStep(length, encoding);
      Resize(length + 1);
      ValsPrefix(b0, contents, length, encoding);
      ghost var b1 := contents;
      if pos < length { MoveTail(pos, pos + 1); }
      ValsInserted(b1, contents, length, pos, value, encoding);
      contents := SetEncoded(contents, pos, value, encoding);
      length := length + 1;
      SortedWith(vs, pos, value);
      IsValid();
      return true;
    }

    /** intsetRemove. */
    method Remove(value: int) returns (success: bool)
      requires Valid() && Int64(value)
      modifies this
      ensures Valid() && (success <==> value in old(Members())) && Members() == old(Members()) - {value}
      ensures encoding == old(encoding)
    {
      hide *;
      Parts();
      OutOfRange(contents, length, encoding, value);
      ghost var vs := V();
      if ValueEncoding(value) > encoding {
        SetLacks(vs, value);
        return false;
      }
      var found, pos := Search(value);
      if !found {
        NotThere(V(), pos, value);
        SetLacks(vs, value);
        return false;
      }
      SetAt(vs, pos);
      var len := length;
      ghost var b0 := contents;
      OffStep(len - 1, encoding);
      if pos < len - 1 { MoveTail(pos + 1, pos); }
      ValsRemoved(b0, contents, len, pos, encoding);
      Resize(len - 1);
      length := len - 1;
      SortedWithout(vs, pos);
      IsValid();
      return true;
    }

    /** intsetFind. */
    method Find(value: int) returns (found: bool)
      requires Valid() && Int64(value)
      ensures found <==> value in Members()
    {
      hide *;
      Parts();
      OutOfRange(contents, length, encoding, value);
      SetLacks(V(), value);
      if ValueEncoding(value) > encoding { return false; }
      var pos;
      found, pos := Search(value);
      if !found {
        NotThere(V(), pos, value);
      } else {
        SetAt(V(), pos);
      }
    }
  }

  lemma SortedIs(vs: seq<int>)
    requires Sorted(vs)
    ensures forall i, j :: 0 <= i < j < |vs| ==> vs[i] < vs[j]
  {}

  lemma EncodingIs(enc: nat)
    requires Encoding(enc)
    ensures enc == 2 || enc == 4 || enc == 8
  {}

  /** Between its insertion point's neighbours a value is not in the sequence. */
  lemma NotThere(vs: seq<int>, pos: nat, v: int)
    requires pos <= |vs| && (forall i :: 0 <= i < pos ==> vs[i] < v) && forall i :: pos <= i < |vs| ==> v < vs[i]
    ensures v !in vs
  {}

  lemma Wider(n: nat, c: nat, e: nat)
    requires c < e
    ensures Off(n, c) <= Off(n, e) <= Off(n + 1, e)
  {
    OffWider(n, c, e);
    OffStep(n, e);
  }

  lemma WidenedNone(b: seq<Byte>, b0: seq<Byte>, n: nat, p: nat, c: nat, e: nat)
    requires Off(n, c) == |b0| && Off(n + 1, e) <= |b| && b0 <= b && p <= 1 && c <= e
    ensures Widened(b, b0, n, n, p, c, e)
  {
    hide *;
    forall j | 0 <= j < n ensures NarrowAt(b, b0, n, j, c, e) {
      NarrowFacts(b, b0, n, j, c, e);
      SlotPrefix(b0, b, j, c);
    }
    WidenedIs(b, b0, n, n, p, c, e);
  }

  lemma SlotPrefix(b: seq<Byte>, c: seq<Byte>, i: nat, enc: nat)
    requires b <= c && Off(i, enc) + enc <= |b|
    ensures Slot(c, i, enc) == Slot(b, i, enc)
  {
    hide Off;
  }

  /** The new value in the slot left free. */
  lemma WidenDone(b: seq<Byte>, b0: seq<Byte>, n: nat, p: nat, c: nat, e: nat, v: int)
    requires Off(n, c) == |b0| && Off(n + 1, e) == |b| && p <= 1 && c <= e && Encoding(e) && Fits(v, e)
    requires Widened(b, b0, n, 0, p, c, e)
    ensures var pos := if p > 0 then 0 else n;
            && Off(pos, e) + e <= |b| && Wrap(v, e) >= 0
            && Vals(SetEncoded(b, pos, v, e), n + 1, e) == if p > 0 then [v] + Vals(b0, n, c) else Vals(b0, n, c) + [v]
  {
    hide *;
    var pos := if p > 0 then 0 else n;
    Inside(pos, n + 1, e);
    SetGet(b, pos, v, e);
    var r := SetEncoded(b, pos, v, e);
    var ws := if p > 0 then [v] + Vals(b0, n, c) else Vals(b0, n, c) + [v];
    forall j | 0 <= j < n + 1 ensures Vals(r, n + 1, e)[j] == ws[j] {
      ValsAt(r, n + 1, e, j);
      if j != pos {
        var k := j - p;
        WidenedAt(b, b0, n, 0, p, c, e, k);
        WideFacts(b, b0, n, k, p, c, e);
        if j < pos { OffOrder(j, pos, e); } else { OffOrder(pos, j, e); }
        SetElsewhere(b, pos, v, e, j, e);
        GetOfSlot(r, b, j, j, e);
        ValsAt(b0, n, c, k);
      }
    }
  }

  /** A value that needs wider slots than the intset has is beyond one of its ends. */
  lemma OutOfRange(b: seq<Byte>, n: nat, enc: nat, v: int)
    requires Encoding(enc) && Off(n, enc) <= |b| && Int64(v)
    ensures ValueEncoding(v) > enc ==>
            forall i :: 0 <= i < n ==> if v < 0 then v < Vals(b, n, enc)[i] else Vals(b, n, enc)[i] < v
    ensures ValueEncoding(v) > enc ==> v !in Vals(b, n, enc)
  {
    hide *;
    FitsIs(v);
    HalfIs(enc);
    var vs := Vals(b, n, enc);
    forall i | 0 <= i < n && ValueEncoding(v) > enc ensures if v < 0 then v < vs[i] else vs[i] < v {
      ValsAt(b, n, enc, i);
      GetFits(b, i, enc, enc);
      TooWide(v, vs[i], enc);
    }
  }

  lemma TooWide(v: int, w: int, enc: nat)
    requires !Fits(v, enc) && Fits(w, enc) && Half(enc) > 0
    ensures if v < 0 then v < w else w < v
  {
    hide Half;
  }

  /** A value beyond one end of a sorted sequence extends it there. */
  lemma EndsSorted(vs: seq<int>, v: int, front: bool)
    requires Sorted(vs) && forall i :: 0 <= i < |vs| ==> if front then v < vs[i] else vs[i] < v
    ensures Sorted(if front then [v] + vs else vs + [v]) && v !in vs
    ensures SetOf(if front then [v] + vs else vs + [v]) == SetOf(vs) + {v}
  {}
}
