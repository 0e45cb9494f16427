/** Quicklist nodes as they are in memory: each step the list takes on a node's texts is the
    ziplist operation on its block, and the blocks stay far from the limits of their sizes. */
module QuickBlocks {
  import opened Bytes
  import opened Options
  import opened QuickChain
  import opened Quicklist
  import opened Seqs
  import opened Util
  import opened ZipEntry
  import opened ZipLayout
  import opened Ziplist
  import opened ZipTexts
  import ZipDelete
  import ZipInsert
  import ZipMerge

  /** The longest string a command takes, and how much a node's texts may come to. */
  const VALUE_MAX: nat := 0x2000_0000
  const WEIGHT_MAX: nat := 0x6000_0000

  /** The block is the node's ziplist, and count and size are those of the block; but the size of
      a node made for one value may not have been noted yet. */
  ghost predicate HeldBy(x: QNode, block: seq<Byte>)
  {
    && Stores(block, x.zl) && x.count == |x.zl| && x.bytes == |block|
    && (x.sz == |block| || (x.sz == 0 && |x.zl| == 1 && |x.zl[0]| <= VALUE_MAX))
  }

  predicate Small(ts: seq<Octets>) { Weight(ts) <= WEIGHT_MAX }

  // ----- Weights -----

  lemma {:induction false} WeightJoin(a: seq<Octets>, b: seq<Octets>)
    ensures Weight(a + b) == Weight(a) + Weight(b)
  {
    if a == [] {
      assert a + b == b;
    } else {
      assert (a + b)[0] == a[0] && (a + b)[1..] == a[1..] + b;
      WeightJoin(a[1..], b);
    }
  }

  lemma WeightOne(v: Octets)
    ensures Weight([v]) == |v| + 14
  {
    assert Weight([v]) == |v| + 14 + Weight([]);
  }

  lemma WeightWith(ts: seq<Octets>, p: nat, v: Octets)
    requires p <= |ts|
    ensures Weight(With(ts, p, v)) == Weight(ts) + |v| + 14
  {
    hide *;
    WithParts(ts, p, v);
    assert ts == ts[..p] + ts[p..];
    WeightJoin(ts[..p], ts[p..]);
    WeightJoin(ts[..p], [v]);
    WeightJoin(ts[..p] + [v], ts[p..]);
    WeightOne(v);
  }

  /** Taking texts out leaves less. */
  lemma WeightCut(ts: seq<Octets>, i: nat, j: nat)
    requires i <= j <= |ts|
    ensures Weight(ts[..i] + ts[j..]) <= Weight(ts)
  {
    hide Weight;
    assert ts == ts[..i] + ts[i..j] + ts[j..];
    WeightJoin(ts[..i], ts[j..]);
    WeightJoin(ts[..i] + ts[i..j], ts[j..]);
    WeightJoin(ts[..i], ts[i..j]);
  }

  /** The entry of a text takes at most 14 bytes more than the text, and at least a 17th of what
      the text weighs. */
  lemma EntryWeight(e: Entry)
    ensures Size(e) <= |TextOf(e.content)| + 14 && |TextOf(e.content)| + 14 <= 17 * Size(e)
  {
    match e.content
    case Str(s) =>
      assert Body(e.content) == StoreLength(|s|) + s;
    case Num(v) =>
      IntegerRoundTrip(v);
      TextShort(v);
      assert |Body(e.content)| == 1 + IntSize(EncodingOf(v));
  }

  lemma {:induction false} FlatWeight(es: seq<Entry>)
    ensures |Flat(es)| <= Weight(Texts(es)) <= 17 * |Flat(es)|
  {
    if es != [] {
      var rest := es[1..];
      FlatWeight(rest);
      EntryWeight(es[0]);
      assert Texts(es)[0] == TextOf(es[0].content) && Texts(es)[1..] == Texts(rest);
      assert |Flat(es)| == |Raw(es[0])| + |Flat(rest)| && |Raw(es[0])| == Size(es[0]);
    }
  }

  lemma {:induction false} WeightCounts(ts: seq<Octets>)
    ensures 14 * |ts| <= Weight(ts)
  {
    if ts != [] { WeightCounts(ts[1..]); }
  }

  /** A block holding texts: its entries, and its size against their weight. */
  lemma Opened(block: seq<Byte>, ts: seq<Octets>) returns (es: seq<Entry>)
    requires Stores(block, ts)
    ensures Rep(block, es) && Texts(es) == ts && |es| == |ts| && 14 * |es| <= Weight(ts)
    ensures 11 <= |block| <= 11 + Weight(ts) && Weight(ts) <= 17 * |block|
  {
    es := EntriesOf(block, ts);
    hide *;
    RepFacts(block, es);
    FlatWeight(es);
    WeightCounts(ts);
    HeaderSize();
  }

  lemma EntriesOf(block: seq<Byte>, ts: seq<Octets>) returns (es: seq<Entry>)
    requires Stores(block, ts)
    ensures Rep(block, es) && Texts(es) == ts && |es| == |ts|
  {
    hide Rep, Texts;
    es :| Rep(block, es) && Texts(es) == ts;
  }

  lemma HeaderSize()
    ensures HEADER == 10 && UINT32_MAX == 0xFFFF_FFFF && VALUE_MAX == 0x2000_0000 && WEIGHT_MAX == 0x6000_0000
  {}

  lemma SmallIs(ts: seq<Octets>)
    ensures Small(ts) <==> Weight(ts) <= 0x6000_0000
  {}

  // ----- What the size tests allow -----

  /** A node that takes another text is small enough for it, and small afterwards. */
  lemma AllowedIsSmall(x: QNode, block: seq<Byte>, fill: int, p: nat, v: Octets)
    requires HeldBy(x, block) && Small(x.zl) && AllowInsert(x, fill, |v|) && |v| <= VALUE_MAX && p <= |x.zl|
    ensures Small(With(x.zl, p, v))
  {
    hide *;
    Held(x, block);
    HeaderSize();
    var es := Opened(block, x.zl);
    SmallIs(x.zl);
    UnsignedMax();
    AllowedSize(x, fill, |v|);
    SmallIs(With(x.zl, p, v));
    WeightWith(x.zl, p, v);
    WeightOfOne(x.zl);
  }

  lemma WeightOfOne(ts: seq<Octets>)
    ensures |ts| == 1 ==> Weight(ts) == |ts[0]| + 14
  {
    if |ts| == 1 {
      WeightOne(ts[0]);
      assert ts == [ts[0]];
    }
  }

  lemma UnsignedMax() ensures UINT_MAX == 0xFFFF_FFFF {}

  lemma AllowedSize(x: QNode, fill: int, sz: nat)
    requires AllowInsert(x, fill, sz) && x.sz + sz + 10 <= UINT_MAX
    ensures x.sz <= 65536
  {}

  lemma MergedIsSmall(x: QNode, y: QNode, b: seq<Byte>, c: seq<Byte>, fill: int)
    requires HeldBy(x, b) && HeldBy(y, c) && Small(x.zl) && Small(y.zl) && AllowMerge(x, y, fill)
    ensures Small(x.zl + y.zl) && |b| + |c| <= VALUE_MAX + 65572
    ensures x.sz == |b| && y.sz == |c| ==> |b| + |c| <= 65547
  {
    hide *;
    Held(x, b);
    Held(y, c);
    var es := Opened(b, x.zl);
    var fs := Opened(c, y.zl);
    SmallIs(x.zl);
    SmallIs(y.zl);
    UnsignedMax();
    MergedSize(x, y, fill);
    SmallIs(x.zl + y.zl);
    WeightJoin(x.zl, y.zl);
    WeightOfOne(x.zl);
    WeightOfOne(y.zl);
    HeaderSize();
  }

  /** Two nodes without a size are not merged: their sizes less 11 are a huge unsigned number. */
  lemma MergedSize(x: QNode, y: QNode, fill: int)
    requires AllowMerge(x, y, fill) && x.sz + y.sz <= UINT_MAX
    ensures 11 <= x.sz + y.sz <= 65547
  {}

  /** Parts of a small node are small. */
  lemma CutIsSmall(ts: seq<Octets>, i: nat, j: nat)
    requires Small(ts) && i <= j <= |ts|
    ensures Small(ts[..i] + ts[j..])
  {
    WeightCut(ts, i, j);
  }

  // ----- The operations on a node -----

  /** quicklistNodeUpdateSz after an operation. */
  lemma Updated(ts: seq<Octets>, block: seq<Byte>)
    requires Stores(block, ts)
    ensures HeldBy(QNode(ts, |block|, |ts|, |block|), block)
  {}

  lemma Held(x: QNode, block: seq<Byte>)
    requires HeldBy(x, block)
    ensures Stores(block, x.zl) && x.count == |x.zl| && x.bytes == |block|
    ensures x.sz == |block| || (x.sz == 0 && |x.zl| == 1 && |x.zl[0]| <= VALUE_MAX)
  {}

  /** A new node with one text, before and after its size is noted. */
  method NewNode(v: Octets) returns (block: seq<Byte>, ghost x: QNode)
    requires |v| <= VALUE_MAX
    ensures HeldBy(x, block) && HeldBy(x.(sz := 0), block) && x.zl == [v] && Small(x.zl) && Recorded(x)
  {
    hide *;
    HeaderSize();
    block := New();
    RepFacts(block, []);
    ZipInsert.FlatEmpty();
    ghost var es;
    block, es := ZipInsert.Push(block, v, true, []);
    PushedOne(v);
    x := QNode([v], |block|, 1, |block|);
    Updated([v], block);
    WeightOne(v);
    SmallIs([v]);
    NotNoted(v, block);
    RecordedBy(x, block);
  }

  lemma NotNoted(v: Octets, block: seq<Byte>)
    requires Stores(block, [v]) && |v| <= VALUE_MAX
    ensures HeldBy(QNode([v], |block|, 1, 0), block)
  {}

  /** What is recorded of a node is what can be recorded of its texts. */
  lemma RecordedBy(x: QNode, block: seq<Byte>)
    requires HeldBy(x, block)
    ensures Recorded(x)
  {
    Held(x, block);
    var _ := Opened(block, x.zl);
    hide HeldBy, Stores, Weight;
  }

  lemma PushedOne(v: Octets)
    ensures ZlPush(Texts([]), v, true) == [v]
  {}

  /** A push on a node that takes it. */
  method PushNode(block0: seq<Byte>, v: Octets, head: bool, fill: int, ghost x0: QNode)
    returns (block: seq<Byte>, ghost x: QNode)
    requires HeldBy(x0, block0) && Small(x0.zl) && AllowInsert(x0, fill, |v|) && |v| <= VALUE_MAX
    ensures HeldBy(x, block) && x.zl == ZlPush(x0.zl, v, head) && Small(x.zl) && x.sz == |block|
  {
    hide *;
    Held(x0, block0);
    HeaderSize();
    SmallIs(x0.zl);
    ghost var es := Opened(block0, x0.zl);
    ghost var fs;
    block, fs := ZipInsert.Push(block0, v, head, es);
    x := QNode(ZlPush(x0.zl, v, head), |block|, |ZlPush(x0.zl, v, head)|, |block|);
    Updated(ZlPush(x0.zl, v, head), block);
    AllowedIsSmall(x0, block0, fill, if head then 0 else |x0.zl|, v);
    PushIsWith(x0.zl, v, head);
  }

  lemma PushIsWith(ts: seq<Octets>, v: Octets, head: bool)
    ensures ZlPush(ts, v, head) == With(ts, if head then 0 else |ts|, v)
  {}

  /** An insertion before entry `p`, or behind the last one, of a node that takes it. */
  method InsertInNode(block0: seq<Byte>, p: nat, v: Octets, fill: int, ghost x0: QNode)
    returns (block: seq<Byte>, ghost x: QNode)
    requires HeldBy(x0, block0) && Small(x0.zl) && AllowInsert(x0, fill, |v|) && |v| <= VALUE_MAX && p <= |x0.zl|
    ensures HeldBy(x, block) && x.zl == With(x0.zl, p, v) && Small(x.zl) && x.sz == |block|
  {
    hide *;
    Held(x0, block0);
    HeaderSize();
    SmallIs(x0.zl);
    ghost var es := Opened(block0, x0.zl);
    RepFacts(block0, es);
    Ziplist.EndAt(block0, es);
    var at := Ziplist.Index(block0, p, es);
    var zi := if at.Some? then at.value else |block0| - 1;
    ghost var fs;
    block, fs := ZipInsert.Insert(block0, zi, v, es, p);
    x := QNode(With(x0.zl, p, v), |block|, |x0.zl| + 1, |block|);
    Updated(With(x0.zl, p, v), block);
    AllowedIsSmall(x0, block0, fill, p, v);
  }

  /** A range deletion, as splitting, trimming and deleting do it. */
  method DeleteFromNode(block0: seq<Byte>, index: int, num: nat, ghost x0: QNode)
    returns (block: seq<Byte>, ghost x: QNode)
    requires HeldBy(x0, block0) && Small(x0.zl)
    ensures HeldBy(x, block) && x.zl == ZlDeleteRange(x0.zl, index, num) && Small(x.zl) && x.sz == |block|
  {
    hide *;
    Held(x0, block0);
    HeaderSize();
    SmallIs(x0.zl);
    ghost var es := Opened(block0, x0.zl);
    ghost var fs;
    block, fs := ZipDelete.DeleteRange(block0, index, num, es);
    x := QNode(ZlDeleteRange(x0.zl, index, num), |block|, |ZlDeleteRange(x0.zl, index, num)|, |block|);
    Updated(ZlDeleteRange(x0.zl, index, num), block);
    DeletedIsSmall(x0.zl, index, num);
  }

  lemma DeletedIsSmall(ts: seq<Octets>, index: int, num: nat)
    requires Small(ts)
    ensures Small(ZlDeleteRange(ts, index, num))
  {
    hide Small;
    var i := if index >= 0 then index else |ts| + index;
    if 0 <= i < |ts| { CutIsSmall(ts, i, if i + num <= |ts| then i + num else |ts|); }
  }

  /** A split: as many bytes of the node's block as its size says are copied, and block and copy
      lose a range each. A copy of no bytes is no ziplist, and nothing can be taken from it. */
  method SplitNode(block0: seq<Byte>, sz: nat, offset: int, after: bool, ghost x0: QNode)
    returns (kept: seq<Byte>, copy: seq<Byte>, rest: Option<seq<Byte>>, ghost x: QNode, ghost y: QNode)
    requires HeldBy(x0, block0) && sz == x0.sz && Small(x0.zl) && AtPlace(|x0.zl|, offset, after)
    ensures HeldBy(x, kept) && Small(x.zl) && x.zl == SplitAt(x0.zl, offset, after).kept
    ensures copy <= block0 && |copy| == sz
    ensures rest.Some? <==> sz == |block0|
    ensures rest.Some? ==>
      HeldBy(y, rest.value) && Small(y.zl) && y.zl == SplitAt(x0.zl, offset, after).rest && Stores(copy, x0.zl)
    ensures rest.None? ==> sz == 0 && forall ts :: !Stores(copy, ts)
  {
    hide *;
    SplitIs(x0.zl, offset, after);
    Held(x0, block0);
    copy := block0[..sz];
    kept, x := DeleteFromNode(block0, if after then offset + 1 else 0, Unsigned(if after then -1 else offset), x0);
    rest, y := None, x;
    if sz < |block0| {
      NoBytes(copy);
    } else {
      assert copy == block0;
      var r: seq<Byte>;
      r, y := DeleteFromNode(copy, if after then 0 else offset, Unsigned(if after then offset + 1 else -1), x0);
      rest := Some(r);
    }
  }

  lemma NoBytes(block: seq<Byte>)
    requires block == []
    ensures forall ts :: !Stores(block, ts)
  {
    forall ts ensures !Stores(block, ts) {
      if Stores(block, ts) { var _ := Opened(block, ts); }
    }
  }

  /** A merge of two nodes that may be merged, unless only the second one is empty. */
  method MergeNodes(a: seq<Byte>, b: seq<Byte>, fill: int, ghost x: QNode, ghost y: QNode)
    returns (block: seq<Byte>, ghost z: QNode)
    requires HeldBy(x, a) && HeldBy(y, b) && Small(x.zl) && Small(y.zl) && AllowMerge(x, y, fill)
    ensures y.zl != [] || x.zl == [] ==> HeldBy(z, block) && z.zl == x.zl + y.zl && Small(z.zl) && z.sz == |block|
    ensures y.zl == [] && x.zl != [] ==> forall w :: !HeldBy(w, block)
  {
    hide *;
    Held(x, a);
    Held(y, b);
    HeaderSize();
    MergedIsSmall(x, y, a, b, fill);
    ghost var es := Opened(a, x.zl);
    ghost var fs := Opened(b, y.zl);
    FewEntries(a, es);
    FewEntries(b, fs);
    SameEmpty(es);
    SameEmpty(fs);
    ghost var gs;
    var append;
    block, append, gs := ZipMerge.Merge(a, b, es, fs);
    z := QNode(x.zl + y.zl, |block|, |x.zl + y.zl|, |block|);
    if y.zl != [] || x.zl == [] {
      Updated(x.zl + y.zl, block);
    } else {
      NoNode(block);
    }
  }

  lemma SameEmpty(es: seq<Entry>)
    ensures es == [] <==> Texts(es) == []
  {}

  lemma NoNode(block: seq<Byte>)
    requires forall ts :: !Stores(block, ts)
    ensures forall w :: !HeldBy(w, block)
  {
    hide Stores;
  }

  lemma FewEntries(block: seq<Byte>, es: seq<Entry>)
    requires Rep(block, es)
    ensures |es| <= |block|
  {
    RepFacts(block, es);
    ZipDelete.FlatLength(es);
    hide Rep;
  }

  // ----- A list of nodes -----

  /** Each node of the list is in a block of its own. */
  ghost predicate Backed(node: map<nat, QNode>, order: seq<nat>, blocks: map<nat, seq<Byte>>)
  {
    forall i :: 0 <= i < |order| ==> order[i] in node && order[i] in blocks
                                     && HeldBy(node[order[i]], blocks[order[i]]) && Small(node[order[i]].zl)
  }

  /** The blocks determine the list. */
  lemma BackedOne(node: map<nat, QNode>, node': map<nat, QNode>, order: seq<nat>, blocks: map<nat, seq<Byte>>)
    requires Backed(node, order, blocks) && Backed(node', order, blocks)
    ensures Zls(node, order) == Zls(node', order)
  {
    hide HeldBy, Small;
    forall i | 0 <= i < |order| ensures node[order[i]].zl == node'[order[i]].zl {
      Held(node[order[i]], blocks[order[i]]);
      Held(node'[order[i]], blocks[order[i]]);
      StoresOne(blocks[order[i]], node[order[i]].zl, node'[order[i]].zl);
    }
  }

  /** A step on one node, done on its block, or a new node with its block, keeps the list and the
      blocks together; so does unlinking a node. */
  lemma BackedStep(node: map<nat, QNode>, order: seq<nat>, blocks: map<nat, seq<Byte>>, n: nat, x: QNode,
                   block: seq<Byte>, i: nat)
    requires Backed(node, order, blocks) && HeldBy(x, block) && Small(x.zl)
    ensures Backed(node[n := x], order, blocks[n := block])
    ensures i <= |order| ==> Backed(node[n := x], With(order, i, n), blocks[n := block])
    ensures i < |order| ==> Backed(node, Without(order, i), blocks)
  {
    hide HeldBy, Small;
  }
}
