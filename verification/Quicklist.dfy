/** The quicklist of quicklist.c, with compression off: a chain of nodes changed in place, each
    holding a ziplist. The ziplists are taken as the sequences of texts the ziplist modules
    show them to be, and the bytes they take as any number such texts can come to. */
module Quicklist {
  import opened Bytes
  import opened Options
  import opened QuickChain
  import opened Seqs
  import opened ZipTexts

  const SIZE_SAFETY_LIMIT: nat := 8192
  const UINT_MAX: nat := 0xFFFF_FFFF
  const INT_MAX: nat := 0x7FFF_FFFF

  /** optimization_level for fill -1 to -5. */
  const OPTIMIZATION_LEVEL: seq<nat> := [4096, 8192, 16384, 32768, 65536]

  /** _quicklistNodeSizeMeetsOptimizationRequirement. */
  predicate SizeMeets(sz: nat, fill: int)
  {
    fill < 0 && -fill - 1 < |OPTIMIZATION_LEVEL| && sz <= OPTIMIZATION_LEVEL[-fill - 1]
  }

  /** _quicklistNodeAllowInsert for a node; sizes are 32 bits wide. */
  predicate AllowInsert(x: QNode, fill: int, sz: nat)
  {
    var overhead := (if sz < 254 then 1 else 5) + (if sz < 64 then 1 else if sz < 16384 then 2 else 5);
    var newSz := (x.sz + sz + overhead) % (UINT_MAX + 1);
    SizeMeets(newSz, fill) || (newSz <= SIZE_SAFETY_LIMIT && x.count < fill)
  }

  /** _quicklistNodeAllowMerge for two nodes. */
  predicate AllowMerge(a: QNode, b: QNode, fill: int)
  {
    var mergeSz := (a.sz + b.sz - 11) % (UINT_MAX + 1);
    SizeMeets(mergeSz, fill) || (mergeSz <= SIZE_SAFETY_LIMIT && a.count + b.count <= fill)
  }

  /** A 32-bit number. */
  function Low32(n: int): (r: int)
    ensures 0 <= r < 0x1_0000_0000 && (n - r) % 0x1_0000_0000 == 0
  {
    n % 0x1_0000_0000
  }

  /** For fill -1 to -5 the size decides alone: 4, 8, 16, 32 or 64 kB, the value and the most its
      header and link can take included. A smaller fill, or 0, takes nothing. */
  lemma FillBySize(x: QNode, y: QNode, fill: int, sz: nat)
    requires fill <= 0
    ensures var limit := if fill == -1 then 0x1000 else if fill == -2 then 0x2000 else if fill == -3 then 0x4000
                         else if fill == -4 then 0x8000 else 0x1_0000;
            && (AllowInsert(x, fill, sz) <==>
                -5 <= fill < 0 && Low32(x.sz + sz + (if sz < 254 then 1 else 5)
                                        + (if sz < 64 then 1 else if sz < 16384 then 2 else 5)) <= limit)
            && (AllowMerge(x, y, fill) <==>
                (-5 <= fill < 0 && Low32(x.sz + y.sz - 11) <= limit)
                || (fill == 0 && x.count + y.count == 0 && Low32(x.sz + y.sz - 11) <= 0x2000))
  {}

  /** For a positive fill the number of entries decides, if the size stays within 8 kB. */
  lemma FillByCount(x: QNode, y: QNode, fill: nat, sz: nat)
    requires fill > 0
    ensures AllowInsert(x, fill, sz) <==>
            x.count < fill && Low32(x.sz + sz + (if sz < 254 then 1 else 5)
                                    + (if sz < 64 then 1 else if sz < 16384 then 2 else 5)) <= 0x2000
    ensures AllowMerge(x, y, fill) <==> x.count + y.count <= fill && Low32(x.sz + y.sz - 11) <= 0x2000
  {}

  lemma InsertFits(x: QNode, fill: int, sz: nat)
    requires AllowInsert(x, fill, sz)
    ensures fill > 0 ==> x.count + 1 <= fill
  {}

  lemma MergeFits(a: QNode, b: QNode, fill: int)
    requires AllowMerge(a, b, fill)
    ensures fill > 0 ==> a.count + b.count <= fill
  {}

  lemma RecordedIs(x: QNode)
    ensures Recorded(x) ==>
            && x.count == |x.zl| && 0 < EMPTY_BLOCK <= x.bytes <= EMPTY_BLOCK + Weight(x.zl)
            && (x.sz == x.bytes || x.sz == 0)
  {}

  lemma Noted(zl: seq<Octets>, sz: nat)
    requires EMPTY_BLOCK <= sz <= EMPTY_BLOCK + Weight(zl)
    ensures 0 < sz && Recorded(QNode(zl, sz, |zl|, sz)) && Recorded(QNode(zl, sz, |zl|, 0))
  {}

  class Quicklist {
    var head: Option<nat>
    var tail: Option<nat>
    var count: nat
    var len: nat
    const fill: int
    var prev: Links
    var next: Links
    var node: map<nat, QNode>
    var used: nat
    ghost var order: seq<nat>

    /** Links, ends and counts are right. */
    ghost predicate Whole()
      reads `prev, `next, `order, `head, `tail, `len, `used, `node
    {
      Linked(prev, next, order, head, tail, len, used) && Counted(node, order)
    }

    /** What the nodes hold, one after the other. */
    ghost function Z(): (zs: seq<seq<Octets>>)
      reads `node, `order
      ensures |zs| == |order|
    {
      Zls(node, order)
    }

    ghost function Contents(): seq<Octets>
      reads `node, `order
    {
      Flatten(Z())
    }

    ghost predicate Valid()
      reads this
    {
      Whole() && Sound(Z(), fill) && count == |Contents()|
    }

    /** The nodes whose recorded size is not that of their ziplist. Only an insertion without a
        node makes one, and whatever changes the node's ziplist records its size. */
    ghost function Unsized(): set<nat>
      reads `node, `order
    {
      UnsizedIn(node, order)
    }

    ghost predicate Sized()
      reads `node, `order
    {
      Unsized() == {}
    }

    constructor (fill: int)
      ensures Valid() && Sized() && this.fill == fill && Contents() == [] && Z() == []
    {
      head, tail, count, len := None, None, 0, 0;
      this.fill := fill;
      prev, next, node, used := map[], map[], map[], 0;
      order := [];
    }

    lemma Parts()
      requires Whole()
      ensures Linked(prev, next, order, head, tail, len, used) && Counted(node, order)
      ensures Z() == Zls(node, order) && AllDifferent(order)
      ensures head == First(order) && tail == Last(order) && len == |order|
      ensures Contents() == Flatten(Z()) && Unsized() == UnsizedIn(node, order)
    {
      hide UnsizedIn, Linked, Counted, Zls, First, Last, AllDifferent, Flatten;
      LinkedEnds(prev, next, order, head, tail, len, used);
    }

    lemma ValidParts()
      requires Valid()
      ensures Whole() && Sound(Z(), fill) && count == |Contents()| && Contents() == Flatten(Z())
    {
      hide Whole, Sound, Z, Flatten;
    }

    lemma IsWhole()
      requires Linked(prev, next, order, head, tail, len, used) && Counted(node, order)
      ensures Whole() && Z() == Zls(node, order) && Unsized() == UnsizedIn(node, order)
    {
      hide Linked, Counted, Zls, UnsizedIn;
    }

    lemma SizedIs()
      ensures Sized() <==> Unsized() == {}
    {}

    lemma IsValid()
      requires Whole() && Sound(Z(), fill) && count == |Flatten(Z())|
      ensures Valid() && Contents() == Flatten(Z())
    {
      hide Whole, Sound, Z, Flatten;
    }

    /** What is known of the node at position `i`. */
    lemma At(i: nat)
      requires Whole() && i < |order|
      ensures var n := order[i];
              && n in node && n in prev && n in next && node[n].zl == Z()[i] && node[n].count == |Z()[i]| && n < used
              && prev[n] == Before(order, i) && next[n] == After(order, i)
              && EMPTY_BLOCK <= node[n].bytes <= EMPTY_BLOCK + Weight(Z()[i])
              && (node[n].sz == node[n].bytes || node[n].sz == 0)
              && (n in Unsized() <==> node[n].sz < node[n].bytes)
    {
      hide *;
      Parts();
      LinkedAt(prev, next, order, head, tail, len, used, i);
      NodeAt(node, order, i);
      RecordedIs(node[order[i]]);
    }

    /** The bytes a ziplist of these entries takes, as ziplistBlobLen reports them. */
    method BlobLen(zl: seq<Octets>) returns (sz: nat)
      ensures EMPTY_BLOCK <= sz <= EMPTY_BLOCK + Weight(zl)
    {
      sz :| EMPTY_BLOCK <= sz <= EMPTY_BLOCK + Weight(zl);
    }

    /** Give the node at position `i` a changed ziplist, its count and its size. */
    method SetZl(n: nat, zl: seq<Octets>, c: nat, ghost i: nat)
      requires Whole() && i < |order| && n == order[i] && c == |zl|
      modifies this`node
      ensures Whole() && Z() == old(Z())[i := zl] && Unsized() == old(Unsized()) - {n}
      ensures SameBut(old(node), node, n, n)
    {
      hide *;
      Parts();
      var sz := BlobLen(zl);
      Noted(zl, sz);
      SetOne(node, n, QNode(zl, sz, c, sz));
      NodeSet(node, order, i, QNode(zl, sz, c, sz));
      node := node[n := QNode(zl, sz, c, sz)];
      IsWhole();
    }

    /** quicklistCreateNode, with the ziplist its callers give it; no size is noted yet. */
    method CreateNode(zl: seq<Octets>, c: nat) returns (x: nat)
      requires Whole() && c == |zl|
      modifies this`node, this`used
      ensures Whole() && Z() == old(Z()) && Unsized() == old(Unsized()) && x !in order && x < used
      ensures x in node && Recorded(node[x]) && node[x].zl == zl && node[x].sz == 0 < node[x].bytes
      ensures forall n :: n in old(node) && n in order ==> n in node && node[n] == old(node)[n]
    {
      hide *;
      Parts();
      var sz := BlobLen(zl);
      Noted(zl, sz);
      x := used;
      NewAddress(prev, next, order, head, tail, len, used);
      NodeOutside(node, order, x, QNode(zl, sz, c, 0));
      node, used := node[x := QNode(zl, sz, c, 0)], used + 1;
      IsWhole();
    }

    /** quicklistNodeUpdateSz on a node that is not linked in yet. */
    method UpdateSz(x: nat)
      requires Whole() && x !in order && x in node && Recorded(node[x])
      modifies this`node
      ensures Whole() && Z() == old(Z()) && Unsized() == old(Unsized()) && x in old(node)
      ensures node == old(node)[x := old(node)[x].(sz := old(node)[x].bytes)] && Recorded(node[x])
    {
      hide *;
      Parts();
      RecordedIs(node[x]);
      NodeOutside(node, order, x, node[x].(sz := node[x].bytes));
      Noted(node[x].zl, node[x].bytes);
      node := node[x := node[x].(sz := node[x].bytes)];
      IsWhole();
    }

    /** __quicklistInsertNode: link `x` in behind `at`, or before it; `i` is its position. With no
        node given that makes the first node of an empty list; any other list is then broken. */
    method InsertNode(at: Option<nat>, x: nat, after: bool, ghost i: nat)
      requires Whole() && x !in order && x < used && x in node && Recorded(node[x])
      requires if at.None? then i == 0 else i < |order| && order[i] == at.value
      modifies this`head, this`tail, this`len, this`prev, this`next, this`order
      ensures at.Some? || old(order) == [] ==>
        var k := if at.Some? && after then i + 1 else i;
        && Whole() && k <= |old(order)| == |old(Z())| && x in node
        && order == With(old(order), k, x) && Z() == With(old(Z()), k, node[x].zl)
        && Unsized() == old(Unsized()) + if node[x].sz != node[x].bytes then {x} else {}
      ensures at.None? && old(order) != [] ==> NoChain(prev, next, head, tail, len, used)
    {
      hide *;
      Parts();
      ghost var k := if at.Some? && after then i + 1 else i;
      ghost var order0 := order;
      if at.Some? || order == [] {
        LinkedWith(prev, next, order, head, tail, len, used, k, x);
        ZlsWith(node, order, k, x);
        UnsizedWith(node, order, k, x);
        Neighbours(order, k);
        order := With(order, k, x);
      } else {
        NodeLost(prev, next, order, head, tail, len, used, x);
      }
      if at.Some? { LinkedAt(prev, next, order0, head, tail, len, used, i); }
      OnlyEnd(order0, i);
      EndAt(order0);
      if at.None? {
        prev, next := prev[x := None], next[x := None];
      } else if after {
        prev, next := prev[x := at], next[x := next[at.value]];
        if next[at.value].Some? { prev := prev[next[at.value].value := Some(x)]; }
        next := next[at.value := Some(x)];
      } else {
        next, prev := next[x := at], prev[x := prev[at.value]];
        if prev[at.value].Some? { next := next[prev[at.value].value := Some(x)]; }
        prev := prev[at.value := Some(x)];
      }
      if after && tail == at { tail := Some(x); }
      if !after && head == at { head := Some(x); }
      if len == 0 { head, tail := Some(x), Some(x); }
      len := len + 1;
      if at.Some? || order0 == [] { IsWhole(); }
    }

    /** __quicklistDelNode: link the node at position `i` out. */
    method DelNode(n: nat, ghost i: nat)
      requires Whole() && i < |order| && order[i] == n && count >= |Z()[i]|
      modifies this`head, this`tail, this`len, this`count, this`prev, this`next, this`order
      ensures Whole() && i < |old(order)| && order == Without(old(order), i) && Z() == Without(old(Z()), i)
      ensures count == old(count) - |old(Z())[i]| && Unsized() == old(Unsized()) - {n}
    {
      hide *;
      Parts();
      At(i);
      LinkedWithout(prev, next, order, head, tail, len, used, i);
      ZlsWithout(node, order, i);
      UnsizedWithout(node, order, i);
      Around(order, i);
      OnlyEnd(order, i);
      var nx, pv := next[n], prev[n];
      if nx.Some? { prev := prev[nx.value := pv]; }
      if pv.Some? { next := next[pv.value := nx]; }
      if tail == Some(n) { tail := pv; }
      if head == Some(n) { head := nx; }
      count := count - node[n].count;
      len := len - 1;
      order := Without(order, i);
      IsWhole();
    }

    /** quicklistPushHead; true if it made a new head. */
    method PushHead(value: Octets) returns (created: bool)
      requires Valid()
      modifies this
      ensures Valid() && Contents() == [value] + old(Contents()) && (created <==> head != old(head))
      ensures created <==> !old(Takes(head, |value|))
      ensures Z() == if created then [[value]] + old(Z()) else old(Z())[0 := [value] + old(Z())[0]]
      ensures Unsized() <= old(Unsized()) && head.Some? && head.value !in Unsized()
    {
      created := PushEnd(value, true);
    }

    /** quicklistPushTail; true if it made a new tail. */
    method PushTail(value: Octets) returns (created: bool)
      requires Valid()
      modifies this
      ensures Valid() && Contents() == old(Contents()) + [value] && (created <==> tail != old(tail))
      ensures created <==> !old(Takes(tail, |value|))
      ensures var zs, i := old(Z()), |old(Z())| - 1;
              Z() == if created then zs + [[value]] else zs[i := zs[i] + [value]]
      ensures Unsized() <= old(Unsized()) && tail.Some? && tail.value !in Unsized()
    {
      created := PushEnd(value, false);
    }

    /** What quicklistPushHead and quicklistPushTail do at either end. */
    method PushEnd(value: Octets, atHead: bool) returns (created: bool)
      requires Valid()
      modifies this
      ensures Valid() && Contents() == if atHead then [value] + old(Contents()) else old(Contents()) + [value]
      ensures created <==> if atHead then head != old(head) else tail != old(tail)
      ensures created <==> !old(Takes(if atHead then head else tail, |value|))
      ensures created ==> Z() == if atHead then [[value]] + old(Z()) else old(Z()) + [[value]]
      ensures !created ==> old(Z()) != []
      ensures !created ==> var zs, i := old(Z()), if atHead then 0 else |old(Z())| - 1;
                           Z() == zs[i := if atHead then [value] + zs[i] else zs[i] + [value]]
      ensures Unsized() <= old(Unsized())
      ensures var end := if atHead then head else tail;
              end.Some? && end.value !in Unsized()
    {
      hide *;
      ValidParts();
      Parts();
      ghost var i, zs := if atHead || order == [] then 0 else |order| - 1, Z();
      EndAt(order);
      if order != [] { At(i); SoundAt(zs, fill, i); }
      var end := if atHead then head else tail;
      TakesIs(end, |value|);
      if end.Some? && AllowInsert(node[end.value], fill, |value|) {
        var x := node[end.value];
        PushIs(x.zl, value, atHead);
        FlattenPush(zs, i, value, atHead);
        SoundIs(ZlPush(x.zl, value, atHead), fill);
        SoundSet(zs, fill, i, ZlPush(x.zl, value, atHead));
        SetZl(end.value, ZlPush(x.zl, value, atHead), x.count + 1, i);
        created := false;
      } else {
        PushIs([], value, atHead);
        UnsizedListed();
        var x := CreateNode(ZlPush([], value, atHead), 1);
        UpdateSz(x);
        NewEnd(zs, value, fill, atHead);
        InsertNode(end, x, !atHead, i);
        EndWith(old(order), x);
        WithEnds(zs, [value]);
        created := true;
      }
      count := count + 1;
      Parts();
      IsValid();
    }

    lemma UnsizedListed()
      ensures forall n :: n in Unsized() ==> n in order
    {}

    /** quicklistDelIndex: delete entry `p` of the node at position `i`, and the node with its
        last entry. */
    method DelIndex(n: nat, p: nat, ghost i: nat) returns (gone: bool)
      requires Valid() && i < |order| && order[i] == n && p < |Z()[i]|
      modifies this
      ensures Valid() && (gone <==> |old(Z())[i]| == 1)
      ensures gone ==> order == Without(old(order), i) && Z() == Without(old(Z()), i)
      ensures !gone ==> order == old(order) && Z() == old(Z())[i := Without(old(Z())[i], p)]
      ensures Start(old(Z()), i) + p < |old(Contents())|
      ensures Contents() == Without(old(Contents()), Start(old(Z()), i) + p) && Unsized() == old(Unsized()) - {n}
    {
      hide *;
      ValidParts();
      At(i);
      ghost var zs := Z();
      DeletedEntry(zs, fill, i, p);
      var x := node[n];
      SetZl(n, Without(x.zl, p), x.count - 1, i);
      gone := x.count - 1 == 0;
      if gone { DelNode(n, i); }
      count := count - 1;
      Parts();
      IsValid();
    }

    /** The pop at either end: the entry there, removed. */
    method Pop(atHead: bool) returns (r: Option<Octets>)
      requires Valid()
      modifies this
      ensures Valid() && Unsized() <= old(Unsized())
      ensures old(Contents()) == [] ==> r.None? && Contents() == []
      ensures old(Contents()) != [] && atHead ==> r == Some(old(Contents())[0]) && Contents() == old(Contents())[1..]
      ensures var s := old(Contents()); s != [] && !atHead ==> r == Some(s[|s| - 1]) && Contents() == s[..|s| - 1]
    {
      hide *;
      ValidParts();
      Parts();
      ghost var zs := Z();
      NothingThere(zs, fill);
      if count == 0 { return None; }
      EndAt(order);
      ghost var i := if atHead then 0 else |order| - 1;
      var end := if atHead then head else tail;
      if end.None? { return None; }
      At(i);
      EndEntry(zs, fill, i, atHead);
      ZlIndexIs(node[end.value].zl, if atHead then 0 else -1);
      var p := ZlIndex(node[end.value].zl, if atHead then 0 else -1);
      r := Some(node[end.value].zl[p.value]);
      var _ := DelIndex(end.value, p.value, i);
    }

    /** quicklistIndex: node and offset of an entry; the offset counts from the node's end for
        a negative index. */
    method Index(idx: int) returns (n: Option<nat>, offset: int, ghost k: nat)
      requires Valid()
      ensures n.Some? <==> -|Contents()| <= idx < |Contents()|
      ensures n.Some? ==> k < |order| && n.value == order[k]
      ensures n.Some? && idx >= 0 ==> 0 <= offset < |Z()[k]| && Start(Z(), k) + offset == idx
      ensures n.Some? && idx < 0 ==> -|Z()[k]| <= offset < 0 && Start(Z(), k) + |Z()[k]| + offset == |Contents()| + idx
    {
      hide *;
      ValidParts();
      Parts();
      EndAt(order);
      ghost var zs := Z();
      StartEnds(zs);
      var forward := idx >= 0;
      var index := if forward then idx else -idx - 1;
      n, offset, k := if forward then head else tail, 0, if forward then 0 else |order|;
      if index >= count { return None, 0, 0; }
      var accum := 0;
      if forward {
        while n.Some?
          invariant k <= |order| && n == (if k < |order| then Some(order[k]) else None)
          invariant accum == Start(zs, k) <= index
          decreases |order| - k
        {
          At(k);
          StartStep(zs, k);
          Around(order, k);
          if accum + node[n.value].count > index { break; }
          accum, n, k := accum + node[n.value].count, next[n.value], k + 1;
        }
        offset := index - accum;
      } else {
        while n.Some?
          invariant k <= |order| && n == (if k > 0 then Some(order[k - 1]) else None)
          invariant accum == |Flatten(zs)| - Start(zs, k) <= index
          decreases k
        {
          At(k - 1);
          StartStep(zs, k - 1);
          Around(order, k - 1);
          if accum + node[n.value].count > index { break; }
          accum, n, k := accum + node[n.value].count, prev[n.value], k - 1;
        }
        offset := -index - 1 + accum;
        k := k - 1;
      }
    }

    /** quicklistReplaceAtIndex. */
    method ReplaceAtIndex(idx: int, data: Octets) returns (replaced: bool, ghost k: nat)
      requires Valid()
      modifies this
      ensures replaced ==> order == old(order) && k < |order| && Unsized() == old(Unsized()) - {order[k]}
      ensures Valid() && (replaced <==> -|old(Contents())| <= idx < |old(Contents())|)
      ensures !replaced ==> Contents() == old(Contents())
      ensures replaced ==> Contents() == old(Contents())[if idx >= 0 then idx else |old(Contents())| + idx := data]
      ensures replaced ==>
        var p := (if idx >= 0 then idx else |old(Contents())| + idx) - Start(old(Z()), k);
        0 <= p < |old(Z())[k]| && Z() == old(Z())[k := old(Z())[k][p := data]]
    {
      hide *;
      ValidParts();
      ghost var zs := Z();
      var n, offset;
      n, offset, k := Index(idx);
      if n.None? { return false, 0; }
      At(k);
      var x := node[n.value];
      ZlIndexIs(x.zl, offset);
      var zi := ZlIndex(x.zl, offset).value;
      Rewritten(zs, fill, k, zi, data);
      SetZl(n.value, With(Without(x.zl, zi), zi, data), x.count, k);
      Parts();
      IsValid();
      replaced := true;
    }

    /** _quicklistZiplistMerge: both ziplists into the one that is not shorter; the other node
        goes. If only the second ziplist is empty, what ziplistMerge makes is no ziplist; there
        is no node with it then. */
    method MergePair(a: nat, b: nat, ghost i: nat) returns (keep: Option<nat>)
      requires Whole() && i + 1 < |order| && order[i] == a && order[i + 1] == b
      requires a in node && b in node && AllowMerge(node[a], node[b], fill)
      modifies this
      ensures keep.None? <==> old(Z())[i] != [] && old(Z())[i + 1] == []
      ensures keep.Some? ==>
        && Whole() && Contents() == old(Contents()) && count == old(count) && Unsized() <= old(Unsized())
        && (Sound(old(Z()), fill) ==> Sound(Z(), fill)) && (Sound(old(Z()), 0) ==> Sound(Z(), 0))
        && order == old(order)[..i] + [keep.value] + old(order)[i + 2..]
        && Z() == old(Z())[..i] + [old(Z())[i] + old(Z())[i + 1]] + old(Z())[i + 2..]
        && SameBut(old(node), node, a, b) && keep.value == if |old(Z())[i]| >= |old(Z())[i + 1]| then a else b
    {
      hide *;
      Parts();
      At(i);
      At(i + 1);
      SetBoth(node, a, b);
      if |node[a].zl| > 0 && |node[b].zl| == 0 { return None; }
      ghost var zs := Z();
      MergeFits(node[a], node[b], fill);
      Merged(zs, order, fill, i);
      Merged(zs, order, 0, i);
      var zl := node[a].zl + node[b].zl;
      if |node[a].zl| >= |node[b].zl| {
        SetZl(a, zl, |zl|, i);
        SetZl(b, [], 0, i + 1);
        DelNode(b, i + 1);
        keep := Some(a);
      } else {
        SetZl(b, zl, |zl|, i + 1);
        SetZl(a, [], 0, i);
        DelNode(a, i);
        keep := Some(b);
      }
      Parts();
    }

    /** May the two nodes, if they are there, be merged? */
    predicate Mergeable(a: Option<nat>, b: Option<nat>)
      requires a.Some? ==> a.value in node
      requires b.Some? ==> b.value in node
      reads `node
    {
      a.Some? && b.Some? && AllowMerge(node[a.value], node[b.value], fill)
    }

    /** _quicklistMergeNodes: try the pairs around the node at position `k0`. False if one of them
        gave no ziplist, which takes a node without entries. The node, or what it has become part
        of, ends up at position `c`. If that is `k0`, no pair before it could be merged; if as many
        nodes as before are behind it, none of those can be merged with it or with each other. */
    method MergeNodes(center: nat, ghost k0: nat) returns (ok: bool, ghost c: nat)
      requires Whole() && k0 < |order| && order[k0] == center
      modifies this
      ensures Sound(old(Z()), 0) ==> ok
      ensures ok ==> Whole() && Contents() == old(Contents()) && count == old(count) && Unsized() <= old(Unsized())
      ensures ok && Sound(old(Z()), fill) ==> Sound(Z(), fill)
      ensures ok ==> c <= k0 && c < |order| && |order| - c <= |old(order)| - k0
      ensures ok && c == k0 ==> old(Apart(k0 - 1)) && old(Apart(k0 - 2))
      ensures ok && |order| - c == |old(order)| - k0 ==> Apart(c) && Apart(c + 1)
      ensures ok && |order| == |old(order)| ==> order == old(order) && Z() == old(Z()) && Settled(k0)
    {
      hide *;
      ghost var k;
      c := k0;
      ok, k := MergeOuter(center, k0);
      if ok { ok, c := MergeInner(center, k); }
      if ok && |order| == |old(order)| { SettledIs(k0); }
    }

    /** Of the node at position `c` and two on either side no two neighbours may be merged. */
    ghost predicate Settled(c: nat)
      reads `node, `order
    {
      forall i :: c - 2 <= i <= c + 1 ==> Apart(i)
    }

    /** The nodes at positions `i` and `i + 1`, if there are two, may not be merged. */
    ghost predicate Apart(i: int)
      reads `node, `order
    {
      PairApart(node, order, fill, i)
    }

    lemma ApartIs(i: int)
      requires 0 <= i && i + 1 < |order| && order[i] in node && order[i + 1] in node
      ensures Apart(i) <==> !AllowMerge(node[order[i]], node[order[i + 1]], fill)
    {}

    lemma ApartPair(i: int)
      ensures Apart(i) <==> PairApart(node, order, fill, i)
    {}

    lemma ApartEnds(i: int)
      requires i < 0 || i + 1 >= |order|
      ensures Apart(i)
    {}

    /** All nodes in the list have contents. */
    lemma AllIn()
      requires Whole()
      ensures forall i :: 0 <= i < |order| ==> order[i] in node
    {
      forall i | 0 <= i < |order| ensures order[i] in node { At(i); }
    }

    lemma SettledAt(c: nat, i: int)
      requires Settled(c) && c - 2 <= i <= c + 1 && 0 <= i && i + 1 < |order|
      ensures order[i] in node && order[i + 1] in node && !AllowMerge(node[order[i]], node[order[i + 1]], fill)
    {
      hide AllowMerge;
      assert Apart(i);
    }

    lemma SettledIs(c: nat)
      requires Apart(c - 2) && Apart(c - 1) && Apart(c) && Apart(c + 1)
      ensures Settled(c)
    {
      hide Apart;
    }

    /** The two nodes before and the two nodes behind. */
    method MergeOuter(center: nat, ghost k0: nat) returns (ok: bool, ghost k: nat)
      requires Whole() && k0 < |order| && order[k0] == center
      modifies this
      ensures Sound(old(Z()), 0) ==> ok
      ensures ok ==> Whole() && Contents() == old(Contents()) && count == old(count) && Unsized() <= old(Unsized())
      ensures ok && Sound(old(Z()), fill) ==> Sound(Z(), fill)
      ensures ok && Sound(old(Z()), 0) ==> Sound(Z(), 0)
      ensures ok ==> k < |order| && order[k] == center && k <= k0 && |order| - k <= |old(order)| - k0
      ensures ok && k == k0 ==> old(Apart(k0 - 2)) && (Apart(k0 - 1) <==> old(Apart(k0 - 1)))
      ensures ok && |order| - k == |old(order)| - k0 ==> Apart(k + 1)
      ensures ok && |order| == |old(order)| ==> k == k0 && order == old(order) && node == old(node)
    {
      hide *;
      ApartPair(k0 - 1);
      ok, k := MergeBefore(center, k0);
      if ok {
        ApartPair(k0 - 1);
        ok := MergeBehind(center, k);
      }
    }

    /** The two nodes before. */
    method MergeBefore(center: nat, ghost k0: nat) returns (ok: bool, ghost k: nat)
      requires Whole() && k0 < |order| && order[k0] == center
      modifies this
      ensures Sound(old(Z()), 0) ==> ok
      ensures ok ==> Whole() && Contents() == old(Contents()) && count == old(count) && Unsized() <= old(Unsized())
      ensures ok && Sound(old(Z()), fill) ==> Sound(Z(), fill)
      ensures ok && Sound(old(Z()), 0) ==> Sound(Z(), 0)
      ensures ok ==> k < |order| && order[k] == center && k <= k0 && |order| - k == |old(order)| - k0
      ensures ok && k == k0 ==> order == old(order) && node == old(node) && old(Apart(k0 - 2))
    {
      hide *;
      k := k0;
      At(k);
      Around(order, k);
      var pv := prev[center];
      if pv.Some? { At(k - 1); Around(order, k - 1); }
      var ppv := if pv.Some? then prev[pv.value] else None;
      if ppv.Some? { At(k - 2); ApartIs(k - 2); } else { ApartEnds(k - 2); }
      MergeableSwap(pv, ppv);
      MergeableIs(ppv, pv);
      if Mergeable(pv, ppv) {
        FullAt(Z(), k - 1);
        var keep := MergePair(ppv.value, pv.value, k - 2);
        if keep.None? { return false, k; }
        k := k - 1;
      }
      ok := true;
    }

    /** The two nodes behind. */
    method MergeBehind(center: nat, ghost k: nat) returns (ok: bool)
      requires Whole() && k < |order| && order[k] == center
      modifies this
      ensures Sound(old(Z()), 0) ==> ok
      ensures ok ==> Whole() && Contents() == old(Contents()) && count == old(count) && Unsized() <= old(Unsized())
      ensures ok && Sound(old(Z()), fill) ==> Sound(Z(), fill)
      ensures ok && Sound(old(Z()), 0) ==> Sound(Z(), 0)
      ensures ok ==> k < |order| && order[k] == center && |order| <= |old(order)|
      ensures ok ==> (Apart(k - 1) <==> old(Apart(k - 1)))
      ensures ok && |order| == |old(order)| ==> order == old(order) && node == old(node)
      ensures ok && |order| == |old(order)| ==> Apart(k + 1)
    {
      hide *;
      At(k);
      Around(order, k);
      ApartPair(k - 1);
      var nx := next[center];
      if nx.Some? { At(k + 1); Around(order, k + 1); }
      var nnx := if nx.Some? then next[nx.value] else None;
      if nnx.Some? { At(k + 2); ApartIs(k + 1); } else { ApartEnds(k + 1); }
      MergeableIs(nx, nnx);
      if Mergeable(nx, nnx) {
        FullAt(Z(), k + 2);
        Parts();
        AllIn();
        var keep := MergePair(nx.value, nnx.value, k + 1);
        if keep.None? { return false; }
        PairStands(old(node), node, old(order), keep.value, fill, k + 1, k - 1);
        ApartPair(k - 1);
      }
      ok := true;
    }

    /** The node with the one before it, and what that gives with the one behind. */
    method MergeInner(center: nat, ghost k0: nat) returns (ok: bool, ghost c: nat)
      requires Whole() && k0 < |order| && order[k0] == center
      modifies this
      ensures Sound(old(Z()), 0) ==> ok
      ensures ok ==> Whole() && Contents() == old(Contents()) && count == old(count) && Unsized() <= old(Unsized())
      ensures ok && Sound(old(Z()), fill) ==> Sound(Z(), fill)
      ensures ok ==> c <= k0 && c < |order| && |order| - c <= |old(order)| - k0
      ensures ok && c == k0 ==> old(Apart(k0 - 1))
      ensures ok && |order| - c == |old(order)| - k0 ==> Apart(c) && (Apart(c + 1) <==> old(Apart(k0 + 1)))
      ensures ok && |order| == |old(order)| ==> c == k0 && order == old(order) && node == old(node)
    {
      hide *;
      c := k0;
      At(c);
      Around(order, c);
      if prev[center].Some? { At(c - 1); ApartIs(c - 1); } else { ApartEnds(c - 1); }
      MergeableSwap(Some(center), prev[center]);
      MergeableIs(prev[center], Some(center));
      ApartPair(c + 1);
      var target := Some(center);
      if Mergeable(target, prev[center]) {
        FullAt(Z(), c);
        Parts();
        AllIn();
        target := MergePair(prev[center].value, center, c - 1);
        if target.None? { return false, c; }
        c := c - 1;
        PairStands(old(node), node, old(order), target.value, fill, c, c + 2);
        At(c);
        Around(order, c);
      }
      ApartPair(c + 1);
      if next[target.value].Some? { At(c + 1); ApartIs(c); } else { ApartEnds(c); }
      MergeableIs(target, next[target.value]);
      if Mergeable(target, next[target.value]) {
        FullAt(Z(), c + 1);
        target := MergePair(target.value, next[target.value].value, c);
      }
      ok := target.Some?;
    }

    lemma MergeableIs(a: Option<nat>, b: Option<nat>)
      requires a.Some? ==> a.value in node
      requires b.Some? ==> b.value in node
      ensures Mergeable(a, b) <==> a.Some? && b.Some? && AllowMerge(node[a.value], node[b.value], fill)
    {
      hide AllowMerge;
    }

    lemma MergeableSwap(a: Option<nat>, b: Option<nat>)
      requires a.Some? ==> a.value in node
      requires b.Some? ==> b.value in node
      ensures Mergeable(a, b) <==> Mergeable(b, a)
    {
      hide SizeMeets;
    }

    /** _quicklistSplitNode: as many bytes of the node's ziplist as its size says are copied, and
        the ziplist and the copy lose a range each. With fewer bytes than it has the copy is no
        ziplist; there is no new node then. */
    method SplitNode(n: nat, offset: int, after: bool, ghost i: nat) returns (x: Option<nat>)
      requires Whole() && i < |order| && order[i] == n && AtPlace(|Z()[i]|, offset, after)
      modifies this`node, this`used
      ensures x.None? <==> n in old(Unsized())
      ensures x.Some? ==>
        && Whole() && x.value !in order && x.value < used && x.value in node && Recorded(node[x.value])
        && node[x.value].zl == SplitAt(old(Z())[i], offset, after).rest
        && Z() == old(Z())[i := SplitAt(old(Z())[i], offset, after).kept] && Unsized() <= old(Unsized())
      ensures offset >= 0 ==>
        Parted(old(Z())[i], CutAt(|old(Z())[i]|, offset, after), after, SplitAt(old(Z())[i], offset, after))
    {
      hide *;
      At(i);
      var zl, zlSz := node[n].zl, node[n].sz;
      SplitIs(zl, offset, after);
      if offset >= 0 { SplitParts(zl, offset, after); }
      if zlSz < node[n].bytes { return None; }
      var origStart, origExtent := if after then offset + 1 else 0, if after then -1 else offset;
      var newStart, newExtent := if after then 0 else offset, if after then offset + 1 else -1;
      var orig := ZlDeleteRange(zl, origStart, Unsigned(origExtent));
      SetZl(n, orig, |orig|, i);
      var rest := ZlDeleteRange(zl, newStart, Unsigned(newExtent));
      var y := CreateNode(rest, |rest|);
      UpdateSz(y);
      x := Some(y);
    }

    /** Give a node that is not linked in yet a changed ziplist. */
    method SetNew(x: nat, zl: seq<Octets>, c: nat)
      requires Whole() && x !in order && c == |zl|
      modifies this`node
      ensures Whole() && Z() == old(Z()) && Unsized() == old(Unsized())
      ensures x in node && node[x].zl == zl && Recorded(node[x]) && node[x].sz == node[x].bytes
    {
      hide *;
      Parts();
      var sz := BlobLen(zl);
      Noted(zl, sz);
      NodeOutside(node, order, x, QNode(zl, sz, c, sz));
      node := node[x := QNode(zl, sz, c, sz)];
      IsWhole();
    }

    /** Is there such a node and does it take an entry of this size? */
    predicate Takes(n: Option<nat>, sz: nat)
      requires n.Some? ==> n.value in node
      reads `node
    {
      n.Some? && AllowInsert(node[n.value], fill, sz)
    }

    lemma TakesIs(n: Option<nat>, sz: nat)
      requires n.Some? ==> n.value in node
      ensures Takes(n, sz) <==> n.Some? && AllowInsert(node[n.value], fill, sz)
      ensures Takes(n, sz) ==> n.Some? && (fill > 0 ==> node[n.value].count + 1 <= fill)
    {
      if Takes(n, sz) { InsertFits(node[n.value], fill, sz); }
    }

    /** The same of the node at position `i`, and of the neighbour of node `i`, if there is one. */
    ghost predicate TakesAt(i: int, sz: nat)
      reads `node, `order
    {
      0 <= i < |order| && order[i] in node && AllowInsert(node[order[i]], fill, sz)
    }

    ghost predicate TakesBeside(i: int, sz: nat, after: bool)
      reads `node, `order
    {
      TakesAt(if after then i + 1 else i - 1, sz)
    }

    lemma TakesAtIs(i: int, sz: nat)
      ensures 0 <= i < |order| && order[i] in node ==> (TakesAt(i, sz) <==> Takes(Some(order[i]), sz))
    {
      hide AllowInsert;
    }

    lemma BesideIs(i: int, sz: nat, after: bool)
      ensures TakesBeside(i, sz, after) <==> TakesAt(if after then i + 1 else i - 1, sz)
    {
      hide AllowInsert;
    }

    /** Is it the node's ziplist that an insertion splits? */
    predicate Splits(n: nat, offset: int, sz: nat, after: bool)
      reads `node, `prev, `next
    {
      && n in node && n in prev && n in next && !AllowInsert(node[n], fill, sz)
      && !(after && offset == node[n].count && next[n].Some?) && !(!after && offset == 0 && prev[n].Some?)
    }

    /** _quicklistInsert around the entry at `offset` of node `n`, from the node's end if that is
        negative. Behind the node's last entry is allowed as a place for an insertion after.
        Without a node the list has to be empty, and its first node then has no size. `ok` is
        false where the C code goes on with bytes that are no ziplist: when it splits a node
        without a size, or merges what a negative offset has left of one. Otherwise the value is
        where it should be unless a negative offset makes the split take the wrong ranges. */
    method Insert(n: Option<nat>, offset: int, value: Octets, after: bool, ghost k: nat) returns (ok: bool)
      requires Valid()
      requires n.Some? ==> k < |order| && order[k] == n.value && AtPlace(|Z()[k]|, offset, after)
      modifies this
      ensures n.None? ==> ok
      ensures n.None? && old(Contents()) == [] ==> Valid() && Contents() == [value] && Z() == [[value]]
      ensures n.None? && old(Contents()) == [] ==> head.Some? && Unsized() == {head.value}
      ensures n.None? && old(Contents()) != [] ==> NoChain(prev, next, head, tail, len, used)
      ensures n.Some? && old(Splits(n.value, offset, |value|, after)) && n.value in old(Unsized()) ==> !ok
      ensures n.Some? && !ok ==>
        && old(Splits(n.value, offset, |value|, after))
        && (n.value in old(Unsized()) || (offset < 0 && (after ==> offset == -1)))
      ensures n.Some? && ok ==> Unsized() <= old(Unsized())
      ensures n.Some? && ok && (offset >= 0 || !old(Splits(n.value, offset, |value|, after))) ==> Valid()
      ensures n.Some? && ok && !old(Splits(n.value, offset, |value|, after)) ==>
        Placed(old(Z()), Z(), k, offset, value, after, old(TakesAt(k, |value|)), old(TakesBeside(k, |value|, after)))
      ensures n.Some? && ok && old(Splits(n.value, offset, |value|, after)) ==>
        Contents() == SplitFlattened(old(Z()), k, offset, value, after) && |order| <= |old(order)| + 1
      ensures n.Some? && ok && old(Splits(n.value, offset, |value|, after)) && |order| == |old(order)| + 1 ==>
        Settled(if after then k else k + 1) && Z() == SplitZls(old(Z()), k, offset, value, after)
      ensures n.Some? && ok ==>
        (Contents() == InsertedAt(old(Z()), k, offset, value, after) <==>
         || offset >= 0 || !old(Splits(n.value, offset, |value|, after))
         || (after && offset == -1 && AllAre(old(Z())[k], value)))
    {
      hide *;
      ValidParts();
      if n.None? {
        NothingThere(Z(), fill);
        NewEnd(Z(), value, fill, true);
        EmptyOrder(Z(), order);
        ghost var zs := Z();
        if zs == [] { EmptySized(); }
        var x := CreateNode([value], 1);
        InsertNode(None, x, after, 0);
        count := count + 1;
        if zs == [] {
          IsValid();
          FirstNode(old(order), x);
          Parts();
        }
        return true;
      }
      ghost var zs := Z();
      PlaceIn(zs, k, offset, value, after);
      if offset < 0 { SplitWrong(zs, k, offset, value, after); }
      ok := InsertEntry(n.value, offset, value, after, k);
      if !ok { return; }
      count := count + 1;
      Parts();
      if offset >= 0 || !old(Splits(n.value, offset, |value|, after)) { IsValid(); }
    }

    lemma EmptySized()
      requires order == []
      ensures Unsized() == {}
    {}

    lemma EmptyOrder(zs: seq<seq<Octets>>, order: seq<nat>)
      requires |zs| == |order|
      ensures zs == [] <==> order == []
    {}

    /** The branches of _quicklistInsert with a node, before the list's count. */
    method InsertEntry(n: nat, offset: int, value: Octets, after: bool, ghost k: nat) returns (ok: bool)
      requires Whole() && Sound(Z(), fill) && k < |order| && order[k] == n && AtPlace(|Z()[k]|, offset, after)
      modifies this
      ensures old(Splits(n, offset, |value|, after)) && n in old(Unsized()) ==> !ok
      ensures !ok ==>
        && old(Splits(n, offset, |value|, after))
        && (n in old(Unsized()) || (offset < 0 && (after ==> offset == -1)))
      ensures ok ==> Whole() && count == old(count) && Unsized() <= old(Unsized())
      ensures ok && (offset >= 0 || !old(Splits(n, offset, |value|, after))) ==>
        Sound(Z(), fill) && Flatten(Z()) == InsertedAt(old(Z()), k, offset, value, after)
      ensures ok && old(Splits(n, offset, |value|, after)) ==>
        Flatten(Z()) == SplitFlattened(old(Z()), k, offset, value, after) && |order| <= |old(order)| + 1
      ensures ok && !old(Splits(n, offset, |value|, after)) ==>
        Placed(old(Z()), Z(), k, offset, value, after, old(TakesAt(k, |value|)), old(TakesBeside(k, |value|, after)))
      ensures ok && old(Splits(n, offset, |value|, after)) && |order| == |old(order)| + 1 ==>
        Settled(if after then k else k + 1) && Z() == SplitZls(old(Z()), k, offset, value, after)
    {
      hide *;
      At(k);
      Around(order, k);
      ghost var zs := Z();
      if prev[n].Some? { At(k - 1); }
      if next[n].Some? { At(k + 1); }
      SoundAt(zs, fill, k);
      CutIs(|zs[k]|, offset, after);
      TakesAtIs(k, |value|);
      TakesAtIs(if after then k + 1 else k - 1, |value|);
      BesideIs(k, |value|, after);
      ghost var here, beside := TakesAt(k, |value|), TakesBeside(k, |value|, after);
      SplitsIs(n, offset, |value|, after);
      TakesIs(Some(n), |value|);
      TakesIs(prev[n], |value|);
      TakesIs(next[n], |value|);
      InsertedIs(zs, k, offset, value, after);
      var x := node[n];
      var full := !Takes(Some(n), |value|);
      var atTail := after && offset == x.count;
      var fullNext := atTail && !Takes(next[n], |value|);
      var atHead := !after && offset == 0;
      var fullPrev := atHead && !Takes(prev[n], |value|);
      if !full {
        var zi := if offset >= 0 then offset else |x.zl| + offset;
        var p := if !after then zi else if zi + 1 < |x.zl| then zi + 1 else |x.zl|;
        PutInNode(n, p, value, k);
      } else if atTail && next[n].Some? && !fullNext {
        StartStep(zs, k);
        PutInNode(next[n].value, 0, value, k + 1);
      } else if atHead && prev[n].Some? && !fullPrev {
        StartStep(zs, k - 1);
        PutInNode(prev[n].value, |node[prev[n].value].zl|, value, k - 1);
      } else if (atTail && next[n].Some? && fullNext) || (atHead && prev[n].Some? && fullPrev) {
        StartStep(zs, k);
        NewBeside(n, value, after, k);
      } else {
        ok := SplitInsert(n, offset, value, after, k);
        return;
      }
      PlacedIs(zs, Z(), k, offset, value, after, here, beside);
      ok := true;
    }

    /** A value put into a node that takes it. */
    method PutInNode(n: nat, p: nat, value: Octets, ghost i: nat)
      requires Whole() && Sound(Z(), fill) && i < |order| && order[i] == n && p <= |Z()[i]|
      requires fill > 0 ==> |Z()[i]| + 1 <= fill
      modifies this`node
      ensures Whole() && Sound(Z(), fill) && Unsized() <= old(Unsized())
      ensures Start(old(Z()), i) + p <= |Flatten(old(Z()))|
      ensures Flatten(Z()) == With(Flatten(old(Z())), Start(old(Z()), i) + p, value)
      ensures Z() == old(Z())[i := With(old(Z())[i], p, value)]
    {
      hide *;
      At(i);
      InsertedInNode(Z(), fill, i, p, value);
      var x := node[n];
      SetZl(n, With(x.zl, p, value), x.count + 1, i);
    }

    /** A value put into a new node beside one. */
    method NewBeside(n: nat, value: Octets, after: bool, ghost k: nat)
      requires Whole() && Sound(Z(), fill) && k < |order| && order[k] == n
      modifies this
      ensures Whole() && Sound(Z(), fill) && count == old(count) && Unsized() <= old(Unsized())
      ensures var i := if after then k + 1 else k;
              && i <= |old(Z())| && Start(old(Z()), i) <= |Flatten(old(Z()))| && Z() == With(old(Z()), i, [value])
              && Flatten(Z()) == With(Flatten(old(Z())), Start(old(Z()), i), value)
    {
      hide *;
      InsertedNode(Z(), fill, k, value, after);
      Parts();
      var y := CreateNode([value], 1);
      UpdateSz(y);
      InsertNode(Some(n), y, after, k);
    }

    lemma SplitsIs(n: nat, offset: int, sz: nat, after: bool)
      requires n in node && n in prev && n in next
      ensures Splits(n, offset, sz, after) <==>
              && !AllowInsert(node[n], fill, sz)
              && !(after && offset == node[n].count && next[n].Some?) && !(!after && offset == 0 && prev[n].Some?)
    {
      hide AllowInsert;
    }

    /** The last branch: split the node, put the entry into the new part, link that in, and
        merge what can be merged. */
    method SplitInsert(n: nat, offset: int, value: Octets, after: bool, ghost k: nat) returns (ok: bool)
      requires Whole() && Sound(Z(), fill) && k < |order| && order[k] == n && AtPlace(|Z()[k]|, offset, after)
      modifies this
      ensures n in old(Unsized()) ==> !ok
      ensures !ok ==> n in old(Unsized()) || (offset < 0 && (after ==> offset == -1))
      ensures ok ==> Whole() && count == old(count) && Unsized() <= old(Unsized())
      ensures ok && offset >= 0 ==> Sound(Z(), fill) && Flatten(Z()) == InsertedAt(old(Z()), k, offset, value, after)
      ensures ok ==> Flatten(Z()) == SplitFlattened(old(Z()), k, offset, value, after)
      ensures ok ==> |order| <= |old(order)| + 1
      ensures ok && |order| == |old(order)| + 1 ==>
        Settled(if after then k else k + 1) && Z() == SplitZls(old(Z()), k, offset, value, after)
    {
      hide *;
      ghost var zs := Z();
      SplitZlsIs(zs, k, offset, value, after);
      SoundAt(zs, fill, k);
      CutIs(|zs[k]|, offset, after);
      InsertedIs(zs, k, offset, value, after);
      SplitRanges(zs[k], offset, after);
      if offset >= 0 { SplitSound(zs, fill, k, CutAt(|zs[k]|, offset, after), value, after); }
      SplitKeeps(zs[k], offset, after);
      SplitFull(zs, fill, k, SplitAt(zs[k], offset, after), value, after);
      var x := SplitNode(n, offset, after, k);
      if x.None? { return false; }
      PushIs(node[x.value].zl, value, after);
      RecordedIs(node[x.value]);
      SplitFlattenedIs(zs, k, offset, value, after);
      SetNew(x.value, ZlPush(node[x.value].zl, value, after), node[x.value].count + 1);
      InsertNode(Some(n), x.value, after, k);
      Parts();
      ghost var c;
      ok, c := MergeNodes(n, if after then k else k + 1);
      if ok { Parts(); }
    }

    /** Deleting a whole node. */
    method DropNode(n: nat, ghost k: nat)
      requires Valid() && k < |order| && order[k] == n
      modifies this
      ensures Valid() && order == Without(old(order), k) && Z() == Without(old(Z()), k) && Unsized() <= old(Unsized())
    {
      hide *;
      ValidParts();
      DroppedNode(Z(), fill, k);
      DelNode(n, k);
      Parts();
      IsValid();
    }

    /** Deleting `del` entries of a node from an offset on; the node goes if none is left. When
        the node does not have so many from there, its count is no longer right. */
    method DelPart(n: nat, offset: int, del: nat, ghost k: nat, ghost p: nat)
      requires Valid() && k < |order| && order[k] == n && 0 < del && p < |Z()[k]|
      requires p == if offset < 0 then |Z()[k]| + offset else offset
      requires p + del <= |Z()[k]| || del < |Z()[k]|
      modifies this
      ensures var z := old(Z())[k];
              if p + del <= |z| then
                && Valid() && Unsized() <= old(Unsized())
                && if del == |z| then order == Without(old(order), k) && Z() == Without(old(Z()), k)
                   else order == old(order) && Z() == old(Z())[k := z[..p] + z[p + del..]]
              else !Whole()
    {
      hide *;
      ValidParts();
      At(k);
      Parts();
      ghost var zs := Z();
      var x := node[n];
      RangeIs(x.zl, offset, del, p);
      var zl := ZlDeleteRange(x.zl, offset, del);
      PartGone(zs, fill, k, zl);
      StartStep(zs, k);
      var sz := BlobLen(zl);
      Noted(zl, sz);
      NodeSet(node, order, k, QNode(zl, sz, x.count - del, sz));
      node := node[n := QNode(zl, sz, x.count - del, sz)];
      count := count - del;
      if x.count - del == 0 {
        IsWhole();
        DelNode(n, k);
        Parts();
        IsValid();
      } else if p + del <= |x.zl| {
        IsWhole();
        Parts();
        IsValid();
      } else {
        Miscounted(k);
      }
    }

    /** A wrong count shows in the invariant. */
    lemma Miscounted(k: nat)
      requires k < |order| && order[k] in node && node[order[k]].count != |node[order[k]].zl|
      ensures !Whole()
    {}

    lemma NotWhole()
      requires !Whole()
      ensures !Valid()
    {}

    /** quicklistDelRange: as ziplistDeleteRange does it, but over nodes. It fails exactly when
        the range starts inside a node, is shorter than that node and ends behind it. */
    method DelRange(start: int, n: int) returns (deleted: bool)
      requires Valid()
      modifies this
      ensures deleted <==> n > 0 && ZlIndex(old(Contents()), start).Some?
      ensures Valid() <==> !(n > 0 && Overruns(old(Z()), start, n))
      ensures Valid() ==> Contents() == if n > 0 then ZlDeleteRange(old(Contents()), start, n) else old(Contents())
      ensures Valid() ==> Unsized() <= old(Unsized())
    {
      hide *;
      if n <= 0 { return false; }
      ValidParts();
      var extent := n;
      if start >= 0 && extent > count - start {
        extent := count - start;
      } else if start < 0 && extent > -start {
        extent := -start;
      }
      ghost var zs0, s := Z(), Contents();
      ZlIndexIs(s, start);
      var at, offset;
      ghost var k: nat;
      at, offset, k := Index(start);
      if at.None? {
        NothingOverruns(zs0, start, n);
        NothingDeleted(s, start, n);
        return false;
      }
      ghost var p: nat := if offset < 0 then |zs0[k]| + offset else offset;
      ghost var pre, post := ToDelete(zs0, k, p, start, n, extent);
      OverrunsHere(zs0, k, p, start, n, extent);
      ghost var over := p == offset && p + extent > |zs0[k]| > extent;
      while extent > 0
        invariant extent >= 0 && (!over || extent > 0 ==> Valid() && Remains(Z(), k, p, extent, pre, post))
        invariant over && extent == 0 ==> !Valid()
        invariant !over || extent > 0 ==> Unsized() <= old(Unsized())
        invariant extent > 0 ==>
                  k < |order| && at == Some(order[k]) && p == if offset < 0 then |Z()[k]| + offset else offset
        invariant extent > 0 ==> (over <==> p == offset && p + extent > |Z()[k]| > extent)
        decreases extent
      {
        ValidParts();
        At(k);
        Around(order, k);
        ghost var zs, order0 := Z(), order;
        SoundAt(zs, fill, k);
        RemainsIn(zs, k, p, extent, pre, post);
        var x := node[at.value];
        var nx := next[at.value];
        var del: int, entire := 0, false;
        if offset == 0 && extent >= x.count {
          entire, del := true, x.count;
        } else if offset >= 0 && extent >= x.count {
          del := x.count - offset;
        } else if offset < 0 {
          del := -offset;
          if del > extent { del := extent; }
        } else {
          del := extent;
        }
        if entire {
          DropNode(at.value, k);
        } else {
          DelPart(at.value, offset, del, k, p);
        }
        if over {
          NotWhole();
        } else {
          RemainsStep(zs, k, p, extent, pre, post, del);
          if p > 0 && p + del == |zs[k]| { k, p := k + 1, 0; }
        }
        extent := extent - del;
        at := nx;
        offset := 0;
        if !over { RemainsMore(Z(), k, p, extent, pre, post); }
      }
      if !over {
        RemainsNone(Z(), k, p, pre, post);
        ValidParts();
      }
      return true;
    }
  }

  lemma Neighbours(order: seq<nat>, k: nat)
    requires k <= |order|
    ensures Before(order, k) == if k > 0 then Some(order[k - 1]) else None
    ensures k > 0 ==> After(order, k - 1) == if k < |order| then Some(order[k]) else None
    ensures k < |order| ==> After(order, k) == if k + 1 < |order| then Some(order[k + 1]) else None
  {}

  /** The node at position `i` is an end of the list just where it should be. */
  lemma OnlyEnd(order: seq<nat>, i: nat)
    ensures i < |order| && AllDifferent(order) ==>
            (First(order) == Some(order[i]) <==> i == 0) && (Last(order) == Some(order[i]) <==> i + 1 == |order|)
    ensures order == [] ==> First(order) == None && Last(order) == None
  {}

  /** The nodes at positions `i` and `i + 1` may not be merged. */
  ghost predicate PairApart(node: map<nat, QNode>, order: seq<nat>, fill: int, i: int)
  {
    0 <= i && i + 1 < |order| ==>
      order[i] in node && order[i + 1] in node && !AllowMerge(node[order[i]], node[order[i + 1]], fill)
  }

  ghost predicate SameBut(was: map<nat, QNode>, node: map<nat, QNode>, a: nat, b: nat)
  {
    forall n :: n in was && n != a && n != b ==> n in node && node[n] == was[n]
  }

  lemma SetOne(node: map<nat, QNode>, n: nat, x: QNode) ensures SameBut(node, node[n := x], n, n) {}

  lemma SetBoth(node: map<nat, QNode>, a: nat, b: nat)
    ensures forall node1, node2 :: SameBut(node, node1, a, a) && SameBut(node1, node2, b, b) ==>
              SameBut(node, node2, a, b)
    ensures forall node1, node2 :: SameBut(node, node1, b, b) && SameBut(node1, node2, a, a) ==>
              SameBut(node, node2, a, b)
  {}

  /** A merge of the nodes at `i` and `i + 1` leaves the pairs without them as they were. */
  lemma PairStands(was: map<nat, QNode>, node: map<nat, QNode>, order: seq<nat>, keep: nat, fill: int, i: nat, j: int)
    requires i + 1 < |order| && (j + 1 < i || j >= i + 2)
    requires AllDifferent(order) && forall p :: 0 <= p < |order| ==> order[p] in was
    requires SameBut(was, node, order[i], order[i + 1])
    ensures var order' := order[..i] + [keep] + order[i + 2..];
            PairApart(node, order', fill, if j < i then j else j - 1) <==> PairApart(was, order, fill, j)
  {
    hide AllowMerge;
    var order' := order[..i] + [keep] + order[i + 2..];
    var j' := if j < i then j else j - 1;
    if 0 <= j && j + 1 < |order| { assert order'[j'] == order[j] && order'[j' + 1] == order[j + 1]; }
  }

  lemma Around(order: seq<nat>, i: nat)
    requires i < |order|
    ensures Before(order, i) == if i > 0 then Some(order[i - 1]) else None
    ensures After(order, i) == if i + 1 < |order| then Some(order[i + 1]) else None
  {}

  lemma EndAt(order: seq<nat>)
    ensures First(order) == if order == [] then None else Some(order[0])
    ensures Last(order) == if order == [] then None else Some(order[|order| - 1])
  {}

  lemma EndWith(order: seq<nat>, x: nat)
    requires x !in order
    ensures First(With(order, 0, x)) == Some(x) != First(order)
    ensures Last(With(order, |order|, x)) == Some(x) != Last(order)
  {}

  lemma PushIs(zl: seq<Octets>, v: Octets, head: bool)
    ensures |ZlPush(zl, v, head)| == |zl| + 1 && ZlPush(zl, v, head) == if head then [v] + zl else zl + [v]
  {}

  lemma SoundIs(zl: seq<Octets>, fill: int)
    ensures zl != [] && (fill > 0 ==> |zl| <= fill) ==> SoundNode(zl, fill)
  {}

  /** Pushing onto the node at an end. */
  lemma FlattenPush(zs: seq<seq<Octets>>, i: nat, v: Octets, head: bool)
    requires i < |zs| && i == if head then 0 else |zs| - 1
    ensures Flatten(zs[i := ZlPush(zs[i], v, head)]) == if head then [v] + Flatten(zs) else Flatten(zs) + [v]
  {
    FlattenAt(zs, i);
    FlattenSet(zs, i, ZlPush(zs[i], v, head));
    if head {
      assert zs[..0] == [];
    } else {
      assert zs[i + 1..] == [];
    }
  }

  lemma WithEnds<T>(s: seq<T>, x: T)
    ensures With(s, 0, x) == [x] + s && With(s, |s|, x) == s + [x]
  {}

  /** A new node at an end. */
  lemma NewEnd(zs: seq<seq<Octets>>, v: Octets, fill: int, head: bool)
    requires Sound(zs, fill)
    ensures ZlPush([], v, head) == [v]
    ensures var k := if head then 0 else |zs|;
            && Flatten(With(zs, k, [v])) == (if head then [v] + Flatten(zs) else Flatten(zs) + [v])
            && Sound(With(zs, k, [v]), fill)
  {
    var k := if head then 0 else |zs|;
    FlattenWith(zs, k, [v]);
    SoundIs([v], fill);
    SoundWith(zs, fill, k, [v]);
    assert zs[..|zs|] == zs && zs[0..] == zs && zs[..0] == [] && zs[|zs|..] == [];
    assert Flatten([]) == [];
  }

  /** How many entries come before node `i`. */
  function Start(zs: seq<seq<Octets>>, i: nat): nat
    requires i <= |zs|
  {
    |Flatten(zs[..i])|
  }

  lemma StartEnds(zs: seq<seq<Octets>>)
    ensures Start(zs, 0) == 0 && Start(zs, |zs|) == |Flatten(zs)|
  {
    assert zs[..|zs|] == zs;
  }

  lemma StartStep(zs: seq<seq<Octets>>, i: nat)
    requires i < |zs|
    ensures Start(zs, i + 1) == Start(zs, i) + |zs[i]| <= |Flatten(zs)|
  {
    hide Flatten;
    FlattenAt(zs, i);
  }

  lemma ZlIndexIs(zl: seq<Octets>, index: int)
    ensures var i := if index >= 0 then index else |zl| + index;
            ZlIndex(zl, index) == if 0 <= i < |zl| then Some(i) else None
  {}

  /** An entry of a node is an entry of the list. */
  lemma EntryAt(zs: seq<seq<Octets>>, i: nat, p: nat)
    requires i < |zs| && p < |zs[i]|
    ensures Start(zs, i) + p < |Flatten(zs)| && Flatten(zs)[Start(zs, i) + p] == zs[i][p]
  {
    hide Flatten;
    FlattenAt(zs, i);
  }

  lemma DeletedEntry(zs: seq<seq<Octets>>, fill: int, i: nat, p: nat)
    requires i < |zs| && p < |zs[i]| && Sound(zs, fill)
    ensures var g, z := Start(zs, i) + p, Without(zs[i], p);
            && g < |Flatten(zs)| && |z| == |zs[i]| - 1
            && (|zs[i]| > 1 ==> Flatten(zs[i := z]) == Without(Flatten(zs), g) && Sound(zs[i := z], fill))
            && (|zs[i]| == 1 ==> Flatten(Without(zs, i)) == Without(Flatten(zs), g))
    ensures Without(zs[i := Without(zs[i], p)], i) == Without(zs, i) && Sound(Without(zs, i), fill)
  {
    hide *;
    var z := Without(zs[i], p);
    StartIs(zs, i);
    SoundAt(zs, fill, i);
    FlattenAt(zs, i);
    FlattenSet(zs, i, z);
    FlattenWithout(zs, i);
    SoundWithout(zs, fill, i);
    WithoutSet(zs, i, z);
    WithoutMiddle(Flatten(zs[..i]), zs[i], Flatten(zs[i + 1..]), p);
    if |zs[i]| > 1 {
      SoundIs(z, fill);
      SoundSet(zs, fill, i, z);
    }
  }

  lemma WithoutMiddle<T>(a: seq<T>, b: seq<T>, c: seq<T>, p: nat)
    requires p < |b|
    ensures Without(a + b + c, |a| + p) == a + Without(b, p) + c
    ensures |b| == 1 ==> Without(a + b + c, |a| + p) == a + c
  {}

  lemma NothingThere(zs: seq<seq<Octets>>, fill: int)
    requires Sound(zs, fill)
    ensures Flatten(zs) == [] <==> zs == []
  {
    forall i | 0 <= i < |zs| ensures zs[i] != [] { SoundAt(zs, fill, i); }
    FlattenLength(zs);
  }

  lemma EndEntry(zs: seq<seq<Octets>>, fill: int, i: nat, atHead: bool)
    requires zs != [] && i == (if atHead then 0 else |zs| - 1) && Sound(zs, fill)
    ensures zs[i] != [] && Flatten(zs) != []
    ensures atHead ==> Start(zs, i) == 0 && Flatten(zs)[0] == zs[i][0] && Without(Flatten(zs), 0) == Flatten(zs)[1..]
    ensures !atHead ==> var s := Flatten(zs);
                        && Start(zs, i) + |zs[i]| == |s| && s[|s| - 1] == zs[i][|zs[i]| - 1]
                           && Without(s, |s| - 1) == s[..|s| - 1]
  {
    hide *;
    SoundAt(zs, fill, i);
    EntryAt(zs, i, if atHead then 0 else |zs[i]| - 1);
    StartEnds(zs);
    StartStep(zs, i);
    EndsGone(Flatten(zs));
  }

  lemma EndsGone<T>(s: seq<T>)
    requires s != []
    ensures Without(s, 0) == s[1..] && Without(s, |s| - 1) == s[..|s| - 1]
  {}

  lemma Rewritten(zs: seq<seq<Octets>>, fill: int, i: nat, p: nat, v: Octets)
    requires i < |zs| && p < |zs[i]| && Sound(zs, fill)
    ensures |Without(zs[i], p)| == |zs[i]| - 1 >= p
    ensures var z := With(Without(zs[i], p), p, v);
            && z == zs[i][p := v] && |z| == |zs[i]| && Start(zs, i) + p < |Flatten(zs)|
            && Flatten(zs[i := z]) == Flatten(zs)[Start(zs, i) + p := v] && Sound(zs[i := z], fill)
  {
    hide *;
    var z := With(Without(zs[i], p), p, v);
    Replaced(zs[i], p, v);
    SoundAt(zs, fill, i);
    StartIs(zs, i);
    FlattenAt(zs, i);
    FlattenSet(zs, i, z);
    SoundIs(z, fill);
    SoundSet(zs, fill, i, z);
    ReplacedMiddle(Flatten(zs[..i]), zs[i], Flatten(zs[i + 1..]), p, v);
  }

  lemma Replaced<T>(s: seq<T>, p: nat, v: T)
    requires p < |s|
    ensures |Without(s, p)| >= p && With(Without(s, p), p, v) == s[p := v]
  {}

  lemma ReplacedMiddle<T>(a: seq<T>, b: seq<T>, c: seq<T>, p: nat, v: T)
    requires p < |b|
    ensures a + b[p := v] + c == (a + b + c)[|a| + p := v]
  {}

  /** An offset of an entry of a node of `n` entries: from its end if negative; or, for an
      insertion after it, the place behind the last entry. */
  predicate AtPlace(n: nat, offset: int, after: bool)
  {
    if offset >= 0 then n < UINT_MAX && if after then offset <= n else offset < n
    else -offset <= n <= INT_MAX
  }

  predicate AllAre(z: seq<Octets>, v: Octets) { forall i :: 0 <= i < |z| ==> z[i] == v }

  /** Where an insertion should cut a node of `n` entries. */
  function CutAt(n: nat, offset: int, after: bool): int
  {
    var p := if offset >= 0 then offset else n + offset;
    if after then (if p + 1 <= n then p + 1 else n) else p
  }

  /** What an insertion that does not split makes of the nodes `zs`: the value goes into the node if that
      takes it (`here`), else into the neighbour it is next to (`beside`), else into a new one. */
  ghost predicate Placed(zs: seq<seq<Octets>>, zs': seq<seq<Octets>>, k: nat, offset: int, v: Octets, after: bool,
                         here: bool, beside: bool)
  {
    if k >= |zs| || !AtPlace(|zs[k]|, offset, after) then false
    else if here then PlaceBound(zs, k, offset, after); zs' == zs[k := With(zs[k], CutAt(|zs[k]|, offset, after), v)]
    else if after then
      k + 1 < |zs| && zs' == if beside then zs[k + 1 := With(zs[k + 1], 0, v)] else With(zs, k + 1, [v])
    else k > 0 && zs' == if beside then zs[k - 1 := With(zs[k - 1], |zs[k - 1]|, v)] else With(zs, k, [v])
  }

  lemma PlacedIs(zs: seq<seq<Octets>>, zs': seq<seq<Octets>>, k: nat, offset: int, v: Octets, after: bool, here: bool,
                 beside: bool)
    requires k < |zs| && AtPlace(|zs[k]|, offset, after)
    ensures 0 <= CutAt(|zs[k]|, offset, after) <= |zs[k]|
    ensures here && zs' == zs[k := With(zs[k], CutAt(|zs[k]|, offset, after), v)] ==>
            Placed(zs, zs', k, offset, v, after, here, beside)
    ensures !here && beside && after && k + 1 < |zs| && zs' == zs[k + 1 := With(zs[k + 1], 0, v)] ==>
            Placed(zs, zs', k, offset, v, after, here, beside)
    ensures !here && beside && !after && k > 0 && zs' == zs[k - 1 := With(zs[k - 1], |zs[k - 1]|, v)] ==>
            Placed(zs, zs', k, offset, v, after, here, beside)
    ensures !here && !beside && (if after then k + 1 < |zs| else k > 0)
            && zs' == With(zs, if after then k + 1 else k, [v]) ==>
            Placed(zs, zs', k, offset, v, after, here, beside)
  {
    PlaceBound(zs, k, offset, after);
    hide With, CutAt, AtPlace;
  }

  /** What an insertion should make of the list. */
  ghost function InsertedAt(zs: seq<seq<Octets>>, k: nat, offset: int, v: Octets, after: bool): seq<Octets>
    requires k < |zs| && AtPlace(|zs[k]|, offset, after)
  {
    PlaceBound(zs, k, offset, after);
    With(Flatten(zs), Start(zs, k) + CutAt(|zs[k]|, offset, after), v)
  }

  lemma PlaceBound(zs: seq<seq<Octets>>, k: nat, offset: int, after: bool)
    requires k < |zs| && AtPlace(|zs[k]|, offset, after)
    ensures 0 <= CutAt(|zs[k]|, offset, after) <= |zs[k]|
    ensures Start(zs, k) + CutAt(|zs[k]|, offset, after) <= |Flatten(zs)|
  {
    hide Flatten, Start;
    StartStep(zs, k);
  }

  lemma InsertedIs(zs: seq<seq<Octets>>, k: nat, offset: int, v: Octets, after: bool)
    requires k < |zs| && AtPlace(|zs[k]|, offset, after)
    ensures 0 <= CutAt(|zs[k]|, offset, after) <= |zs[k]|
    ensures Start(zs, k) + CutAt(|zs[k]|, offset, after) <= |Flatten(zs)|
    ensures InsertedAt(zs, k, offset, v, after) == With(Flatten(zs), Start(zs, k) + CutAt(|zs[k]|, offset, after), v)
  {
    hide Flatten, Start, CutAt, With;
    PlaceBound(zs, k, offset, after);
  }

  /** A C int taken as an unsigned number. */
  function Unsigned(v: int): nat
    requires v + UINT_MAX >= 0
  {
    if v < 0 then v + UINT_MAX + 1 else v
  }

  /** What a split leaves in the node and what it gives to the new one. */
  datatype Halves = Halves(kept: seq<Octets>, rest: seq<Octets>)

  function SplitAt(zl: seq<Octets>, offset: int, after: bool): Halves
    requires AtPlace(|zl|, offset, after)
  {
    Halves(ZlDeleteRange(zl, if after then offset + 1 else 0, Unsigned(if after then -1 else offset)),
           ZlDeleteRange(zl, if after then 0 else offset, Unsigned(if after then offset + 1 else -1)))
  }

  lemma SplitIs(zl: seq<Octets>, offset: int, after: bool)
    requires AtPlace(|zl|, offset, after)
    ensures offset + UINT_MAX >= 0 && UINT_MAX > 1
    ensures SplitAt(zl, offset, after)
            == Halves(ZlDeleteRange(zl, if after then offset + 1 else 0, Unsigned(if after then -1 else offset)),
                      ZlDeleteRange(zl, if after then 0 else offset, Unsigned(if after then offset + 1 else -1)))
  {}

  /** The two deletions of a split leave the two parts, when the offset is not negative. */
  lemma SplitRanges(zl: seq<Octets>, offset: int, after: bool)
    requires AtPlace(|zl|, offset, after)
    ensures 0 <= CutAt(|zl|, offset, after) <= |zl|
    ensures var c := CutAt(|zl|, offset, after);
            offset >= 0 ==>
              SplitAt(zl, offset, after) == if after then Halves(zl[..c], zl[c..]) else Halves(zl[c..], zl[..c])
  {}

  /** The halves are the parts before and behind the cut, the first one kept in the node if the
      value comes behind it. */
  predicate Parted(zl: seq<Octets>, c: int, after: bool, h: Halves)
  {
    && 0 <= c <= |zl| && (if after then h.kept else h.rest) == zl[..c] && (if after then h.rest else h.kept) == zl[c..]
  }

  lemma SplitParts(zl: seq<Octets>, offset: int, after: bool)
    requires AtPlace(|zl|, offset, after) && offset >= 0
    ensures Parted(zl, CutAt(|zl|, offset, after), after, SplitAt(zl, offset, after))
  {
    hide SplitAt, CutAt, AtPlace;
    SplitRanges(zl, offset, after);
  }

  /** A negative offset makes them lose entries, or put the whole node behind the cut. */
  lemma SplitNegative(zl: seq<Octets>, offset: int, after: bool)
    requires AtPlace(|zl|, offset, after) && offset < 0
    ensures var n := |zl| + offset;
            SplitAt(zl, offset, after)
            == if !after then Halves([], zl[..n]) else if offset == -1 then Halves([], zl) else Halves(zl[..n + 1], [])
  {}

  /** The nodes after a split with the entry put between the halves, before any merge. */
  ghost function SplitZls(zs: seq<seq<Octets>>, k: nat, offset: int, v: Octets, after: bool): seq<seq<Octets>>
    requires k < |zs| && AtPlace(|zs[k]|, offset, after)
  {
    var h := SplitAt(zs[k], offset, after);
    With(zs[k := h.kept], if after then k + 1 else k, ZlPush(h.rest, v, after))
  }

  lemma SplitZlsIs(zs: seq<seq<Octets>>, k: nat, offset: int, v: Octets, after: bool)
    requires k < |zs| && AtPlace(|zs[k]|, offset, after)
    ensures var h := SplitAt(zs[k], offset, after);
            SplitZls(zs, k, offset, v, after)
            == With(zs[k := h.kept], if after then k + 1 else k, ZlPush(h.rest, v, after))
  {
    hide SplitAt, With;
  }

  /** The list after a split with the entry put between the halves. */
  ghost function SplitFlattened(zs: seq<seq<Octets>>, k: nat, offset: int, v: Octets, after: bool): seq<Octets>
    requires k < |zs| && AtPlace(|zs[k]|, offset, after)
  {
    var h := SplitAt(zs[k], offset, after);
    Flatten(zs[..k]) + (if after then h.kept + ([v] + h.rest) else h.rest + [v] + h.kept) + Flatten(zs[k + 1..])
  }

  lemma SplitFlattenedIs(zs: seq<seq<Octets>>, k: nat, offset: int, v: Octets, after: bool)
    requires k < |zs| && AtPlace(|zs[k]|, offset, after)
    ensures var h := SplitAt(zs[k], offset, after);
            Flatten(With(zs[k := h.kept], if after then k + 1 else k, ZlPush(h.rest, v, after)))
            == SplitFlattened(zs, k, offset, v, after)
  {
    hide Flatten, With, SplitAt;
    var h := SplitAt(zs[k], offset, after);
    SplitFlat(zs, k, h.kept, ZlPush(h.rest, v, after), after);
  }

  /** With a negative offset a split loses entries, or the value comes before the node's entries
      instead of behind them; the latter is no different exactly if they all are the value. */
  lemma SplitWrong(zs: seq<seq<Octets>>, k: nat, offset: int, v: Octets, after: bool)
    requires k < |zs| && AtPlace(|zs[k]|, offset, after) && offset < 0
    ensures SplitFlattened(zs, k, offset, v, after) == InsertedAt(zs, k, offset, v, after) <==>
            after && offset == -1 && AllAre(zs[k], v)
  {
    hide Flatten, SplitAt, Start, AllAre, With;
    SplitNegative(zs[k], offset, after);
    FlattenAt(zs, k);
    PlaceIn(zs, k, offset, v, after);
    InsertedIs(zs, k, offset, v, after);
    StartIs(zs, k);
    if after && offset == -1 {
      BothEnds(Flatten(zs[..k]), zs[k], Flatten(zs[k + 1..]), v);
    }
  }

  lemma BothEnds(a: seq<Octets>, z: seq<Octets>, b: seq<Octets>, v: Octets)
    ensures a + ([] + ([v] + z)) + b == With(a + z + b, |a| + |z|, v) <==> AllAre(z, v)
  {
    WithMiddle(a, z, b, |z|, v);
    if a + ([] + ([v] + z)) + b == With(a + z + b, |a| + |z|, v) {
      assert (a + ([] + ([v] + z)) + b)[|a|..|a| + |z| + 1] == [v] + z;
      assert (a + With(z, |z|, v) + b)[|a|..|a| + |z| + 1] == z + [v];
      Rotated(z, v, |z|);
    }
    if AllAre(z, v) { assert [v] + z == z + [v]; }
  }

  lemma {:induction false} Rotated(z: seq<Octets>, v: Octets, n: nat)
    requires n <= |z| && [v] + z == z + [v]
    ensures AllAre(z[..n], v)
  {
    if n > 0 {
      Rotated(z, v, n - 1);
      assert ([v] + z)[n - 1] == (z + [v])[n - 1];
    }
  }

  /** What a split leaves in the node is nothing for some negative offsets only. */
  lemma SplitKeeps(zl: seq<Octets>, offset: int, after: bool)
    requires zl != [] && AtPlace(|zl|, offset, after)
    ensures SplitAt(zl, offset, after).kept == [] <==> offset < 0 && (after ==> offset == -1)
  {
    SplitRanges(zl, offset, after);
    if offset < 0 { SplitNegative(zl, offset, after); }
    hide SplitAt;
  }

  lemma SplitFull(zs: seq<seq<Octets>>, fill: int, k: nat, h: Halves, v: Octets, after: bool)
    requires k < |zs| && Sound(zs, fill)
    ensures h.kept != [] ==>
            Sound(With(zs[k := h.kept], if after then k + 1 else k, ZlPush(h.rest, v, after)), 0)
  {
    hide *;
    FullIs(zs, fill);
    PushIs(h.rest, v, after);
    if h.kept != [] {
      SoundIs(h.kept, 0);
      SoundIs(ZlPush(h.rest, v, after), 0);
      SoundSet(zs, 0, k, h.kept);
      SoundWith(zs[k := h.kept], 0, if after then k + 1 else k, ZlPush(h.rest, v, after));
    }
  }

  /** Sound for fill 0 means that no node is empty. */
  lemma FullIs(zs: seq<seq<Octets>>, fill: int)
    requires Sound(zs, fill)
    ensures Sound(zs, 0)
  {
    forall i | 0 <= i < |zs| ensures SoundNode(zs[i], 0) { SoundAt(zs, fill, i); }
  }

  lemma FullAt(zs: seq<seq<Octets>>, i: nat)
    requires i < |zs|
    ensures Sound(zs, 0) ==> zs[i] != []
  {}

  lemma FirstNode(order: seq<nat>, x: nat)
    ensures First(With([], 0, x)) == Some(x)
  {}

  lemma PlaceIn(zs: seq<seq<Octets>>, k: nat, offset: int, v: Octets, after: bool)
    requires k < |zs| && AtPlace(|zs[k]|, offset, after)
    ensures |InsertedAt(zs, k, offset, v, after)| == |Flatten(zs)| + 1
  {
    hide *;
    InsertedIs(zs, k, offset, v, after);
  }

  /** Two nodes made one. */
  lemma Merged(zs: seq<seq<Octets>>, order: seq<nat>, fill: int, i: nat)
    requires |order| == |zs| && i + 1 < |zs| && (fill > 0 ==> |zs[i]| + |zs[i + 1]| <= fill)
    ensures var z, ms := zs[i] + zs[i + 1], zs[..i] + [zs[i] + zs[i + 1]] + zs[i + 2..];
            && Without(zs[i := z][i + 1 := []], i + 1) == ms && Without(zs[i + 1 := z][i := []], i) == ms
            && Flatten(ms) == Flatten(zs) && (Sound(zs, fill) ==> Sound(ms, fill))
    ensures Without(order, i + 1) == order[..i] + [order[i]] + order[i + 2..]
    ensures Without(order, i) == order[..i] + [order[i + 1]] + order[i + 2..]
  {
    hide *;
    var z := zs[i] + zs[i + 1];
    TwoToOne(zs, i, z);
    TwoToOneOrder(order, i);
    MergedFlat(zs, i);
    if Sound(zs, fill) {
      SoundAt(zs, fill, i);
      SoundIs(z, fill);
      SoundSet(zs, fill, i, z);
      SoundWithout(zs[i := z], fill, i + 1);
    }
  }

  lemma TwoToOne(zs: seq<seq<Octets>>, i: nat, z: seq<Octets>)
    requires i + 1 < |zs|
    ensures var ms := zs[..i] + [z] + zs[i + 2..];
            && Without(zs[i := z][i + 1 := []], i + 1) == ms && Without(zs[i + 1 := z][i := []], i) == ms
               && Without(zs[i := z], i + 1) == ms
  {}

  lemma TwoToOneOrder(order: seq<nat>, i: nat)
    requires i + 1 < |order|
    ensures Without(order, i + 1) == order[..i] + [order[i]] + order[i + 2..]
    ensures Without(order, i) == order[..i] + [order[i + 1]] + order[i + 2..]
  {}

  lemma MergedFlat(zs: seq<seq<Octets>>, i: nat)
    requires i + 1 < |zs|
    ensures Flatten(zs[..i] + [zs[i] + zs[i + 1]] + zs[i + 2..]) == Flatten(zs)
  {
    hide Flatten;
    FlattenAt(zs, i);
    FlattenAt(zs, i + 1);
    FlattenOne(zs[i] + zs[i + 1]);
    FlattenJoin(zs[..i] + [zs[i] + zs[i + 1]], zs[i + 2..]);
    FlattenJoin(zs[..i], [zs[i] + zs[i + 1]]);
    Associate(Flatten(zs[..i]), zs[i], zs[i + 1]);
  }

  lemma Associate<T>(a: seq<T>, b: seq<T>, c: seq<T>)
    ensures a + b + c == a + (b + c)
  {}

  lemma CutIs(n: nat, offset: int, after: bool)
    requires n > 0 && AtPlace(n, offset, after)
    ensures var p := if offset >= 0 then offset else n + offset;
            CutAt(n, offset, after) == if !after then p else if p + 1 < n then p + 1 else n
    ensures 0 <= CutAt(n, offset, after) <= n
    ensures if after then CutAt(n, offset, after) > 0 else CutAt(n, offset, after) < n
    ensures offset >= 0 ==> if after then offset <= n else offset < n
  {}

  /** An entry put into a node is put into the list. */
  lemma InsertedInNode(zs: seq<seq<Octets>>, fill: int, i: nat, p: nat, v: Octets)
    requires i < |zs| && p <= |zs[i]| && Sound(zs, fill) && (fill > 0 ==> |zs[i]| + 1 <= fill)
    ensures var z := With(zs[i], p, v);
            && Start(zs, i) + p <= |Flatten(zs)| && |z| == |zs[i]| + 1
            && Flatten(zs[i := z]) == With(Flatten(zs), Start(zs, i) + p, v) && Sound(zs[i := z], fill)
  {
    hide *;
    StartIs(zs, i);
    FlattenAt(zs, i);
    FlattenSet(zs, i, With(zs[i], p, v));
    WithMiddle(Flatten(zs[..i]), zs[i], Flatten(zs[i + 1..]), p, v);
    SoundIs(With(zs[i], p, v), fill);
    SoundSet(zs, fill, i, With(zs[i], p, v));
  }

  lemma StartIs(zs: seq<seq<Octets>>, i: nat)
    requires i <= |zs|
    ensures Start(zs, i) == |Flatten(zs[..i])|
  {}

  lemma WithMiddle<T>(a: seq<T>, b: seq<T>, c: seq<T>, p: nat, v: T)
    requires p <= |b|
    ensures With(a + b + c, |a| + p, v) == a + With(b, p, v) + c
  {}

  lemma WithBetween<T>(a: seq<T>, c: seq<T>, v: T)
    ensures With(a + c, |a|, v) == a + [v] + c
  {}

  /** A new node next to one. */
  lemma InsertedNode(zs: seq<seq<Octets>>, fill: int, i: nat, v: Octets, after: bool)
    requires i < |zs| && Sound(zs, fill)
    ensures var k := if after then i + 1 else i;
            && Start(zs, k) <= |Flatten(zs)|
            && Flatten(With(zs, k, [v])) == With(Flatten(zs), Start(zs, k), v) && Sound(With(zs, k, [v]), fill)
  {
    hide *;
    var k := if after then i + 1 else i;
    StartIs(zs, k);
    FlattenWith(zs, k, [v]);
    FlattenJoin(zs[..k], zs[k..]);
    assert zs == zs[..k] + zs[k..];
    WithBetween(Flatten(zs[..k]), Flatten(zs[k..]), v);
    SoundIs([v], fill);
    SoundWith(zs, fill, k, [v]);
  }

  /** The two parts of a split with the entry between them. */
  lemma SplitSound(zs: seq<seq<Octets>>, fill: int, i: nat, c: nat, v: Octets, after: bool)
    requires i < |zs| && c <= |zs[i]| && Sound(zs, fill) && if after then c > 0 else c < |zs[i]|
    ensures var z := zs[i];
            var part := if after then z[..c] else z[c..];
            var rest := ZlPush(if after then z[c..] else z[..c], v, after);
            var ws := With(zs[i := part], if after then i + 1 else i, rest);
            && Start(zs, i) + c <= |Flatten(zs)| && Sound(ws, fill)
               && Flatten(ws) == With(Flatten(zs), Start(zs, i) + c, v)
  {
    hide *;
    var z := zs[i];
    var part := if after then z[..c] else z[c..];
    var rest := ZlPush(if after then z[c..] else z[..c], v, after);
    PushIs(if after then z[c..] else z[..c], v, after);
    SoundAt(zs, fill, i);
    SoundIs(part, fill);
    SoundIs(rest, fill);
    SoundSet(zs, fill, i, part);
    SoundWith(zs[i := part], fill, if after then i + 1 else i, rest);
    SplitFlat(zs, i, part, rest, after);
    StartIs(zs, i);
    FlattenAt(zs, i);
    WithMiddle(Flatten(zs[..i]), z, Flatten(zs[i + 1..]), c, v);
    WithParts(z, c, v);
  }

  lemma WithParts<T>(s: seq<T>, c: nat, v: T)
    requires c <= |s|
    ensures s[..c] + ([v] + s[c..]) == With(s, c, v) && s[..c] + [v] + s[c..] == With(s, c, v)
  {}

  lemma SplitFlat(zs: seq<seq<Octets>>, i: nat, part: seq<Octets>, rest: seq<Octets>, after: bool)
    requires i < |zs|
    ensures Flatten(With(zs[i := part], if after then i + 1 else i, rest))
            == Flatten(zs[..i]) + (if after then part + rest else rest + part) + Flatten(zs[i + 1..])
  {
    hide *;
    var ws, k := zs[i := part], if after then i + 1 else i;
    FlattenWith(ws, k, rest);
    if after {
      assert ws[..k] == zs[..i] + [part] && ws[k..] == zs[i + 1..];
      FlattenJoin(zs[..i], [part]);
      FlattenOne(part);
      Associate(Flatten(zs[..i]), part, rest);
    } else {
      assert ws[..k] == zs[..i] && ws[k..] == [part] + zs[i + 1..];
      FlattenJoin([part], zs[i + 1..]);
      FlattenOne(part);
      Associate(Flatten(zs[..i]), rest, part);
      Associate(Flatten(zs[..i]) + rest, part, Flatten(zs[i + 1..]));
    }
  }

  lemma DroppedNode(zs: seq<seq<Octets>>, fill: int, i: nat)
    requires i < |zs| && Sound(zs, fill)
    ensures Sound(Without(zs, i), fill) && |Flatten(Without(zs, i))| == |Flatten(zs)| - |zs[i]|
  {
    hide *;
    SoundWithout(zs, fill, i);
    FlattenWithout(zs, i);
    FlattenAt(zs, i);
  }

  lemma RangeIs(zl: seq<Octets>, offset: int, del: nat, p: nat)
    requires p < |zl| && p == if offset < 0 then |zl| + offset else offset
    ensures ZlDeleteRange(zl, offset, del) == if p + del <= |zl| then zl[..p] + zl[p + del..] else zl[..p]
  {}

  lemma PartGone(zs: seq<seq<Octets>>, fill: int, i: nat, z: seq<Octets>)
    requires i < |zs| && Sound(zs, fill) && |z| <= |zs[i]|
    ensures |Flatten(zs[i := z])| == |Flatten(zs)| - |zs[i]| + |z|
    ensures z != [] ==> Sound(zs[i := z], fill)
    ensures z == [] ==>
            Without(zs[i := z], i) == Without(zs, i) && Sound(Without(zs, i), fill)
              && |Flatten(Without(zs, i))| == |Flatten(zs)| - |zs[i]|
  {
    hide *;
    FlattenAt(zs, i);
    FlattenSet(zs, i, z);
    SoundAt(zs, fill, i);
    DroppedNode(zs, fill, i);
    SoundIs(z, fill);
    if z != [] { SoundSet(zs, fill, i, z); }
    WithoutSet(zs, i, z);
  }

  lemma WithoutSet<T>(s: seq<T>, i: nat, x: T)
    requires i < |s|
    ensures Without(s[i := x], i) == Without(s, i)
  {}

  /** What a range deletion has still to do: `extent` entries from entry `p` of node `k` on,
      leaving `pre` and `post`. */
  ghost predicate Remains(zs: seq<seq<Octets>>, k: nat, p: nat, extent: int, pre: seq<Octets>, post: seq<Octets>)
  {
    && extent >= 0 && k <= |zs| && (p > 0 ==> k < |zs| && p < |zs[k]|)
    && Start(zs, k) + p == |pre| && Leaves(Flatten(zs), extent, pre, post)
  }

  ghost predicate Leaves(s: seq<Octets>, extent: nat, pre: seq<Octets>, post: seq<Octets>)
  {
    |s| == |pre| + extent + |post| && s[..|pre|] == pre && s[|pre| + extent..] == post
  }

  /** A range starting inside node `k` that is shorter than the node but ends behind it. */
  ghost predicate OverrunsAt(zs: seq<seq<Octets>>, k: nat, start: int, n: int)
    requires k < |zs|
  {
    var extent := if start + n <= |Flatten(zs)| then n else |Flatten(zs)| - start;
    Start(zs, k) < start < Start(zs, k) + |zs[k]| < start + extent && extent < |zs[k]|
  }

  ghost predicate Overruns(zs: seq<seq<Octets>>, start: int, n: int)
  {
    exists k :: 0 <= k < |zs| && OverrunsAt(zs, k, start, n)
  }

  /** From the head, or from an offset counted from the end, a range never does. */
  lemma NeverOverruns(zs: seq<seq<Octets>>, start: int, n: int)
    requires start <= 0
    ensures !Overruns(zs, start, n)
  {}

  /** It does for two nodes of three and one entries when the last two entries are to go. */
  lemma OverrunExample(a: Octets)
    ensures Overruns([[a, a, a], [a]], 2, 2)
  {
    var zs := [[a, a, a], [a]];
    FlattenAt(zs, 0);
    assert zs[..0] == [] && zs[1..] == [[a]];
    FlattenOne([a]);
    assert OverrunsAt(zs, 0, 2, 2);
  }

  lemma StartGrows(zs: seq<seq<Octets>>, i: nat, j: nat)
    requires i <= j <= |zs|
    ensures Start(zs, i) <= Start(zs, j)
  {
    assert zs[..j] == zs[..i] + zs[i..j];
    FlattenJoin(zs[..i], zs[i..j]);
  }

  /** Only the node the range starts in matters. */
  lemma OverrunsHere(zs: seq<seq<Octets>>, k: nat, p: nat, start: int, n: int, extent: nat)
    requires k < |zs| && p < |zs[k]| && n > 0 && extent > 0
    requires Start(zs, k) + p == if start >= 0 then start else |Flatten(zs)| + start
    requires extent
             == if start >= 0 then (if n > |Flatten(zs)| - start then |Flatten(zs)| - start else n)
               else if n > -start then -start else n
    ensures Overruns(zs, start, n) <==> start >= 0 && 0 < p && p + extent > |zs[k]| > extent
  {
    hide Flatten, Start;
    forall j | 0 <= j < |zs| && OverrunsAt(zs, j, start, n) ensures j == k {
      StartStep(zs, j);
      StartStep(zs, k);
      if j < k { StartGrows(zs, j + 1, k); }
      if k < j { StartGrows(zs, k + 1, j); }
    }
    if start >= 0 && 0 < p && p + extent > |zs[k]| > extent { assert OverrunsAt(zs, k, start, n); }
  }

  /** A range that starts outside the list. */
  lemma NothingOverruns(zs: seq<seq<Octets>>, start: int, n: int)
    requires !(-|Flatten(zs)| <= start < |Flatten(zs)|)
    ensures !Overruns(zs, start, n)
  {
    hide Flatten, Start;
    forall j | 0 <= j < |zs| ensures !OverrunsAt(zs, j, start, n) {
      StartStep(zs, j);
    }
  }

  lemma NothingDeleted(s: seq<Octets>, start: int, n: nat)
    requires !(-|s| <= start < |s|)
    ensures ZlDeleteRange(s, start, n) == s
  {}

  /** Where a deletion begins. */
  lemma ToDelete(zs: seq<seq<Octets>>, k: nat, p: nat, start: int, n: nat, extent: nat)
    returns (pre: seq<Octets>, post: seq<Octets>)
    requires k < |zs| && p < |zs[k]| && -|Flatten(zs)| <= start < |Flatten(zs)|
    requires Start(zs, k) + p == if start >= 0 then start else |Flatten(zs)| + start
    requires extent
             == if start >= 0 then (if n > |Flatten(zs)| - start then |Flatten(zs)| - start else n)
               else if n > -start then -start else n
    ensures Remains(zs, k, p, extent, pre, post) && pre + post == ZlDeleteRange(Flatten(zs), start, n)
  {
    hide Flatten, Start;
    var s, g := Flatten(zs), Start(zs, k) + p;
    pre, post := s[..g], s[g + extent..];
  }

  lemma RemainsIn(zs: seq<seq<Octets>>, k: nat, p: nat, extent: int, pre: seq<Octets>, post: seq<Octets>)
    requires Remains(zs, k, p, extent, pre, post) && k < |zs| && zs[k] != []
    ensures p < |zs[k]|
  {
    hide Flatten, Start, Leaves;
  }

  /** Taking a range out of one node takes it out of the list. */
  lemma CutRange(zs: seq<seq<Octets>>, k: nat, p: nat, del: nat)
    requires k < |zs| && p + del <= |zs[k]|
    ensures Start(zs, k) + p + del <= |Flatten(zs)|
    ensures Flatten(zs[k := zs[k][..p] + zs[k][p + del..]])
            == Flatten(zs)[..Start(zs, k) + p] + Flatten(zs)[Start(zs, k) + p + del..]
  {
    FlattenAt(zs, k);
    FlattenSet(zs, k, zs[k][..p] + zs[k][p + del..]);
    hide Flatten;
    CutMiddle(Flatten(zs[..k]), zs[k], Flatten(zs[k + 1..]), p, del);
  }

  lemma CutMiddle<T>(a: seq<T>, b: seq<T>, c: seq<T>, p: nat, del: nat)
    requires p + del <= |b|
    ensures a + (b[..p] + b[p + del..]) + c == (a + b + c)[..|a| + p] + (a + b + c)[|a| + p + del..]
  {}

  lemma LeavesLess(s: seq<Octets>, extent: nat, pre: seq<Octets>, post: seq<Octets>, del: nat)
    requires Leaves(s, extent, pre, post) && del <= extent
    ensures |pre| + del <= |s| && Leaves(s[..|pre|] + s[|pre| + del..], extent - del, pre, post)
  {}

  /** One round. */
  lemma RemainsStep(zs: seq<seq<Octets>>, k: nat, p: nat, extent: int, pre: seq<Octets>, post: seq<Octets>, del: nat)
    requires Remains(zs, k, p, extent, pre, post) && k < |zs| && p < |zs[k]| && 0 < del <= extent
    requires p + del <= |zs[k]| && (p + del == |zs[k]| || del == extent)
    ensures del == |zs[k]| ==> Remains(Without(zs, k), k, 0, extent - del, pre, post)
    ensures var zs' := zs[k := zs[k][..p] + zs[k][p + del..]];
            && (p > 0 && p + del == |zs[k]| ==> Remains(zs', k + 1, 0, extent - del, pre, post))
            && (del < |zs[k]| && (p == 0 || p + del < |zs[k]|) ==> Remains(zs', k, p, extent - del, pre, post))
  {
    hide Flatten, Start, Leaves;
    CutRange(zs, k, p, del);
    LeavesLess(Flatten(zs), extent, pre, post, del);
    var zs' := zs[k := zs[k][..p] + zs[k][p + del..]];
    StartSame(zs, zs', k);
    StartStep(zs', k);
    if del == |zs[k]| {
      FlattenSet(zs, k, []);
      FlattenWithout(zs, k);
      StartSame(zs, Without(zs, k), k);
      assert zs' == zs[k := []];
      assert Flatten(zs[..k]) + [] + Flatten(zs[k + 1..]) == Flatten(zs[..k]) + Flatten(zs[k + 1..]);
    }
  }

  lemma StartSame(zs: seq<seq<Octets>>, ws: seq<seq<Octets>>, k: nat)
    requires k <= |zs| && k <= |ws| && forall i :: 0 <= i < k ==> ws[i] == zs[i]
    ensures Start(ws, k) == Start(zs, k)
  {
    assert zs[..k] == ws[..k];
  }

  /** Entries that are to go are in a node. */
  lemma RemainsMore(zs: seq<seq<Octets>>, k: nat, p: nat, extent: int, pre: seq<Octets>, post: seq<Octets>)
    requires Remains(zs, k, p, extent, pre, post)
    ensures extent > 0 ==> k < |zs|
  {
    hide Flatten, Start;
    StartEnds(zs);
  }

  lemma RemainsNone(zs: seq<seq<Octets>>, k: nat, p: nat, pre: seq<Octets>, post: seq<Octets>)
    requires Remains(zs, k, p, 0, pre, post)
    ensures Flatten(zs) == pre + post
  {
    hide Flatten, Start;
    assert Flatten(zs) == Flatten(zs)[..|pre|] + Flatten(zs)[|pre|..];
  }

  // ----- Inputs at which the code fails -----

  /** With a positive fill and short entries only the number of entries decides. */
  lemma FewFit(x: QNode, fill: nat, sz: nat)
    requires fill > 0 && x.sz + sz + 10 <= SIZE_SAFETY_LIMIT
    ensures AllowInsert(x, fill, sz) <==> x.count < fill
  {}

  lemma FullNode(x: QNode, fill: nat, sz: nat)
    requires 0 < fill <= x.count
    ensures !AllowInsert(x, fill, sz)
  {}

  /** A push onto a list of short entries fills the last node before it makes a new one. */
  method PushShort(ql: Quicklist, v: Octets)
    requires ql.Valid() && ql.Sized() && ql.fill > 0
    requires ql.Z() != [] ==> Weight(ql.Z()[|ql.Z()| - 1]) + |v| <= 8000
    modifies ql
    ensures ql.Valid() && ql.Sized()
    ensures var zs := old(ql.Z());
            var i := |zs| - 1;
            ql.Z() == if zs == [] || |zs[i]| >= ql.fill then zs + [[v]] else zs[i := zs[i] + [v]]
  {
    hide *;
    ql.ValidParts();
    ql.Parts();
    ql.SizedIs();
    EndAt(ql.order);
    Limits();
    if ql.order != [] { ql.At(|ql.order| - 1); }
    ql.TakesIs(ql.tail, |v|);
    if ql.order != [] {
      FewFit(ql.node[ql.tail.value], ql.fill, |v|);
    }
    var _ := ql.PushTail(v);
    ql.SizedIs();
  }

  lemma Limits()
    ensures EMPTY_BLOCK == 11 && SIZE_SAFETY_LIMIT == 8192 && UINT_MAX == 0xFFFF_FFFF && INT_MAX == 0x7FFF_FFFF
  {}

  lemma WeightOf(v: Octets, w: Octets)
    ensures Weight([v]) == |v| + 14 && Weight([v, w]) == |v| + |w| + 28
    ensures Weight([v, v, w]) == |v| + |v| + |w| + 42
  {
    assert Weight([v]) == |v| + 14 + Weight([]);
    assert [v, w][1..] == [w] && Weight([w]) == |w| + 14 + Weight([]);
    assert [v, v, w][1..] == [v, w];
  }

  lemma OneSet(z: seq<Octets>, v: Octets, r: seq<Octets>)
    requires r == z + [v]
    ensures [z][0 := z + [v]] == [r]
  {}

  /** Four entries in nodes of three. */
  method FourShort(a: Octets) returns (ql: Quicklist)
    requires |a| <= 1000
    ensures fresh(ql) && ql.Valid() && ql.Sized() && ql.fill == 3 && ql.Z() == [[a, a, a], [a]]
  {
    hide *;
    ql := new Quicklist(3);
    WeightOf(a, a);
    PushShort(ql, a);
    assert [] + [[a]] == [[a]];
    PushShort(ql, a);
    OneSet([a], a, [a, a]);
    PushShort(ql, a);
    OneSet([a, a], a, [a, a, a]);
    PushShort(ql, a);
    assert [[a, a, a]] + [[a]] == [[a, a, a], [a]];
  }

  /** Deleting the last two of four entries, in nodes of three: the list is broken. */
  method DeleteOverrun(a: Octets) returns (ql: Quicklist)
    requires |a| <= 1000
    ensures !ql.Valid()
  {
    hide *;
    ql := FourShort(a);
    OverrunExample(a);
    var _ := ql.DelRange(2, 2);
  }

  /** A value put behind the second of four entries, in nodes of three: the full node is split,
      and its second half merged with the last node. */
  method MergesBack(a: Octets, v: Octets) returns (ql: Quicklist, ok: bool)
    requires |a| <= 500 && |v| <= 500
    ensures ok && ql.Valid() && ql.Contents() == [a, a, v, a, a] && ql.len == 2
  {
    hide *;
    ql := FourShort(a);
    ql.ValidParts();
    ql.Parts();
    ql.SizedIs();
    SplitInMiddle(a, v);
    var n, offset;
    ghost var k;
    n, offset, k := ql.Index(1);
    InFirst(a, k, offset);
    ql.At(k);
    FullNode(ql.node[n.value], 3, |v|);
    ql.SplitsIs(n.value, offset, |v|, true);
    ok := ql.Insert(n, offset, v, true, k);
    ql.ValidParts();
    ql.Parts();
    Limits();
    ql.SizedIs();
    TwoNodes(ql.Z(), [a, a, v, a, a]);
    if |ql.order| == 3 {
      ql.At(1);
      ql.At(2);
      ql.SettledAt(0, 1);
      WeightOf(v, a);
      WeightOf(a, a);
      FewMerge(ql.node[ql.order[1]], ql.node[ql.order[2]], 3);
    }
  }

  lemma FewMerge(x: QNode, y: QNode, fill: nat)
    requires fill > 0 && 11 <= x.sz + y.sz <= SIZE_SAFETY_LIMIT && x.count + y.count <= fill
    ensures AllowMerge(x, y, fill)
  {}

  lemma InFirst(a: Octets, k: nat, offset: int)
    requires k < 2 && offset >= 0
    requires var zs := [[a, a, a], [a]]; offset < |zs[k]| && Start(zs, k) + offset == 1
    ensures k == 0 && offset == 1
  {
    var zs := [[a, a, a], [a]];
    StartEnds(zs);
    StartStep(zs, 0);
  }

  lemma SplitInMiddle(a: Octets, v: Octets)
    ensures AtPlace(3, 1, true) && SplitZls([[a, a, a], [a]], 0, 1, v, true) == [[a, a], [v, a], [a]]
    ensures InsertedAt([[a, a, a], [a]], 0, 1, v, true) == [a, a, v, a, a] && Flatten([[a, a, a], [a]]) == [a, a, a, a]
  {
    var zs := [[a, a, a], [a]];
    SplitRanges(zs[0], 1, true);
    InsertedIs(zs, 0, 1, v, true);
    StartEnds(zs);
    FlattenAt(zs, 0);
    FlattenOne([a]);
    assert zs[..0] == [] && zs[1..] == [[a]];
    assert Flatten([]) == [] && Flatten(zs) == [a, a, a, a];
    assert zs[0][..2] == [a, a] && zs[0][2..] == [a] && zs[0 := [a, a]] == [[a, a], [a]];
    assert [v] + [a] == [v, a] && [[a, a], [a]][..1] == [[a, a]] && [[a, a], [a]][1..] == [[a]];
    assert With([[a, a], [a]], 1, [v, a]) == [[a, a], [v, a], [a]];
    assert CutAt(3, 1, true) == 2 && With([a, a, a, a], 2, v) == [a, a, v, a, a];
    assert |zs[0]| == 3 && InsertedAt(zs, 0, 1, v, true) == With(Flatten(zs), 2, v);
  }

  /** Five entries in nodes of at most three are in two nodes or more. */
  lemma TwoNodes(zs: seq<seq<Octets>>, s: seq<Octets>)
    requires Sound(zs, 3) && Flatten(zs) == s && |s| == 5
    ensures |zs| >= 2
  {}

  /** Behind the first of two entries, found from the end, the value goes in where the split of a
      full node has lost the second one. */
  method SplitLoses(a: Octets, b: Octets, v: Octets) returns (ql: Quicklist, ok: bool)
    requires |a| <= 1000 && |b| <= 1000
    ensures ok && ql.Contents() == [a, v]
    ensures AtPlace(2, -2, true) && InsertedAt([[a, b]], 0, -2, v, true) == [a, v, b]
  {
    hide *;
    ql := new Quicklist(2);
    WeightOf(a, b);
    PushShort(ql, a);
    assert [] + [[a]] == [[a]];
    PushShort(ql, b);
    OneSet([a], b, [a, b]);
    LosesOne(a, b, v);
    ql.ValidParts();
    ql.Parts();
    ql.SizedIs();
    var n, offset;
    ghost var k;
    n, offset, k := ql.Index(-2);
    ql.At(k);
    StartEnds(ql.Z());
    FullNode(ql.node[n.value], 2, |v|);
    ql.SplitsIs(n.value, offset, |v|, true);
    ok := ql.Insert(n, offset, v, true, k);
  }

  lemma LosesOne(a: Octets, b: Octets, v: Octets)
    ensures AtPlace(2, -2, true) && SplitFlattened([[a, b]], 0, -2, v, true) == [a, v]
    ensures InsertedAt([[a, b]], 0, -2, v, true) == [a, v, b] && Flatten([[a, b]]) == [a, b]
  {
    var zs := [[a, b]];
    SplitNegative(zs[0], -2, true);
    InsertedIs(zs, 0, -2, v, true);
    FlattenOne([a, b]);
    assert zs[..0] == [] && zs[1..] == [];
  }

  /** In an empty list the insertion without a node leaves one without a size, and the next value,
      too long for it, has it split: nothing is copied. */
  method SplitUnsized(a: Octets, v: Octets) returns (ql: Quicklist, ok: bool)
    requires SIZE_SAFETY_LIMIT <= |v| <= INT_MAX
    ensures !ok
  {
    hide *;
    Limits();
    ql := new Quicklist(-2);
    ok := ql.Insert(None, 0, a, true, 0);
    ql.ValidParts();
    ql.Parts();
    EndAt(ql.order);
    var n, offset;
    ghost var k;
    n, offset, k := ql.Index(0);
    ql.At(k);
    StartEnds(ql.Z());
    BehindFirst();
    TooLong(ql.node[n.value], |v|);
    ql.SplitsIs(n.value, offset, |v|, true);
    ok := ql.Insert(n, offset, v, true, k);
  }

  lemma BehindFirst()
    ensures AtPlace(1, 0, true)
  {}

  lemma TooLong(x: QNode, sz: nat)
    requires x.sz == 0 && SIZE_SAFETY_LIMIT <= sz <= INT_MAX
    ensures !AllowInsert(x, -2, sz)
  {}
}
