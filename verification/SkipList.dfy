/** The skip list of zset.c: forward pointers, spans and back pointers changed in place. The
    memory of the nodes is part of the list object, and no two listed nodes have the same
    address. */
module SkipList {
  import opened ZKeys
  import opened Options
  import opened Seqs
  import opened SkipOrder
  import opened SkipLinks

  type Memory = map<Node, seq<Level>>
  type Links = map<Node, Option<Node>>

  /** The listed nodes are allocated. */
  ghost predicate Allocated(nodes: seq<Node>, links: Memory, back: Links, used: nat)
  {
    && (forall r :: 0 <= r < |nodes| ==> nodes[r] in links && nodes[r] in back)
    && forall n :: n in links ==> n.address < used
  }

  /** The level arrays of the listed nodes. */
  ghost function Levels(links: Memory, nodes: seq<Node>): (lv: seq<seq<Level>>)
    ensures |lv| == |nodes|
            && forall r :: 0 <= r < |nodes| ==> lv[r] == if nodes[r] in links then links[nodes[r]] else []
  {
    seq(|nodes|, i requires 0 <= i < |nodes| => if nodes[i] in links then links[nodes[i]] else [])
  }

  ghost predicate Backward(back: Links, nodes: seq<Node>)
  {
    forall r :: 0 <= r < |nodes| ==> nodes[r] in back && back[nodes[r]] == Behind(nodes, r)
  }

  ghost predicate Shaped(nodes: seq<Node>, links: Memory, back: Links, used: nat, level: nat)
  {
    Allocated(nodes, links, back, used) && Structured(nodes, Levels(links, nodes), level) && Backward(back, nodes)
  }

  /** What holds of the parts the methods read first. */
  lemma ShapedFacts(nodes: seq<Node>, links: Memory, back: Links, used: nat, level: nat)
    requires Shaped(nodes, links, back, used, level)
    ensures Allocated(nodes, links, back, used) && AllDistinct(nodes) && Ordered(nodes, level)
    ensures Linked(nodes, Levels(links, nodes), level) && 1 <= level <= MAXLEVEL && |nodes| > 0
    ensures forall r :: 0 <= r < |nodes| ==> nodes[r] in links && |links[nodes[r]]| == nodes[r].height
  {
    StructuredParts(nodes, Levels(links, nodes), level);
    StructuredFacts(nodes, Levels(links, nodes), level);
    hide Structured;
  }

  lemma AllocatedFacts(nodes: seq<Node>, links: Memory, back: Links, used: nat)
    requires Allocated(nodes, links, back, used)
    ensures forall r :: 0 <= r < |nodes| ==> nodes[r] in links && nodes[r] in back
  {}

  /** Writing one cell of one listed node's array. */
  lemma CellWritten(nodes: seq<Node>, links: Memory, back: Links, used: nat, r: nat, i: nat, v: Level)
    requires AllDistinct(nodes) && r < |nodes| && Allocated(nodes, links, back, used)
    requires i < |links[nodes[r]]|
    ensures var links' := links[nodes[r] := links[nodes[r]][i := v]];
            && Allocated(nodes, links', back, used)
            && Levels(links', nodes) == Levels(links, nodes)[r := Levels(links, nodes)[r][i := v]]
  {}

  lemma OtherWritten(nodes: seq<Node>, links: Memory, back: Links, used: nat, x: Node, v: seq<Level>)
    requires Allocated(nodes, links, back, used) && x !in nodes && x in links
    ensures var links' := links[x := v];
            Allocated(nodes, links', back, used) && Levels(links', nodes) == Levels(links, nodes)
  {}

  lemma SpliceStart(nodes: seq<Node>, links: Memory, back: Links, used: nat, level: nat, p: nat, update: seq<Node>,
                    rank: seq<int>)
    requires Allocated(nodes, links, back, used) && Cut(nodes, Levels(links, nodes), level, p, update, rank)
    ensures |update| == |rank| == level && 1 <= level && rank[0] == p
  {
    hide *;
    CutParts(nodes, Levels(links, nodes), level, p, update, rank);
    OrderedFacts(nodes, level);
    BottomRank(nodes, level, p, update, rank);
  }

  lemma UpdatedFirst(nodes: seq<Node>, lv: seq<seq<Level>>, level: nat, p: nat, update: seq<Node>, rank: seq<int>)
    requires Cut(nodes, lv, level, p, update, rank)
    ensures p < |nodes| && 1 <= level && |update| == level && update[0] == nodes[p]
  {
    hide *;
    CutParts(nodes, lv, level, p, update, rank);
    OrderedFacts(nodes, level);
    BottomRank(nodes, level, p, update, rank);
  }

  /** The node that precedes the place on level `i`. */
  lemma UpdatedAt(nodes: seq<Node>, links: Memory, back: Links, used: nat, pre: seq<seq<Level>>, x: Node, level: nat,
                  p: nat, update: seq<Node>, rank: seq<int>, i: nat)
    requires Cut(nodes, pre, level, p, update, rank) && i < level
    requires Allocated(nodes, links, back, used)
    requires Spliced(pre, Levels(links, nodes), x, x.height, p, rank, i) && x !in nodes
    ensures 0 <= rank[i] <= p && rank[i] < |nodes| == |pre| && update[i] == nodes[rank[i]]
    ensures update[i] in links && update[i] != x
    ensures links[update[i]] == Levels(links, nodes)[rank[i]] && |links[update[i]]| == |pre[rank[i]]| > i
    ensures links[update[i]][i] == pre[rank[i]][i]
  {
    AllocatedFacts(nodes, links, back, used);
    hide *;
    CutParts(nodes, pre, level, p, update, rank);
    PathFacts(nodes, level, p, update, rank);
    LinkedFacts(nodes, pre, level);
    SplicedAt(pre, Levels(links, nodes), x, x.height, p, rank, i, rank[i], i);
    SplicedBeyond(pre[rank[i]][i], x, x.height, p, rank[i], i);
  }

  lemma BottomLinkAt(nodes: seq<Node>, links: Memory, level: nat, r: nat)
    requires Structured(nodes, Levels(links, nodes), level) && r < |nodes| && nodes[r] in links
    ensures |links[nodes[r]]| > 0 && (links[nodes[r]][0].forward.Some? <==> r + 1 < |nodes|)
    ensures links[nodes[r]][0].forward.Some? ==> links[nodes[r]][0].forward.value == nodes[r + 1]
  {
    hide Structured;
    BottomLink(nodes, Levels(links, nodes), level, r);
  }

  lemma AllocatedBack(nodes: seq<Node>, links: Memory, back: Links, used: nat, n: Node, v: Option<Node>)
    requires Allocated(nodes, links, back, used)
    ensures Allocated(nodes, links, back[n := v], used)
  {}

  /** At the bottom of the path is the node at the place, and behind it the next one. */
  lemma PathBottom(nodes: seq<Node>, links: Memory, back: Links, used: nat, level: nat, p: nat, update: seq<Node>,
                   rank: seq<int>)
    requires Allocated(nodes, links, back, used) && Structured(nodes, Levels(links, nodes), level)
    requires Path(nodes, level, p, update, rank)
    ensures |update| == |rank| == level && level > 0 && p < |nodes| && update[0] == nodes[p] && update[0] in links
    ensures |links[update[0]]| > 0
            && links[update[0]][0].forward == if p + 1 < |nodes| then Some(nodes[p + 1]) else None
  {
    AllocatedFacts(nodes, links, back, used);
    hide *;
    StructuredParts(nodes, Levels(links, nodes), level);
    OrderedFacts(nodes, level);
    BottomRank(nodes, level, p, update, rank);
    BottomLinkAt(nodes, links, level, p);
  }

  /** The tests zslIsInRange makes, on the first and last node. */
  lemma NodeScores(nodes: seq<Node>, links: Memory, level: nat, header: Node, length: nat, tail: Option<Node>,
                   range: Range)
    requires Structured(nodes, Levels(links, nodes), level) && Ends(nodes, header, length, tail) && header in links
    ensures |links[header]| > 0 && length == |nodes| - 1
    ensures length == 0 ==> tail.None? && links[header][0].forward.None? && NoneInRange(nodes, range)
    ensures length > 0 ==> tail == Some(nodes[length]) && links[header][0].forward == Some(nodes[1])
    ensures length > 0 && (!GteMin(range, nodes[length].score) || !LteMax(range, nodes[1].score)) ==>
            NoneInRange(nodes, range)
    ensures EmptyRange(range) ==> NoneInRange(nodes, range)
  {
    BottomLinkAt(nodes, links, level, 0);
    StructuredParts(nodes, Levels(links, nodes), level);
    hide Structured, Ordered, Linked, GteMin, LteMax;
    forall i | 1 <= i < |nodes| && (!GteMin(range, nodes[length].score) || !LteMax(range, nodes[1].score))
        ensures !InRange(range, nodes[i].score)
    {
      ScoresSorted(nodes, level, 1, i);
      ScoresSorted(nodes, level, i, length);
      RangeMonotone(range, nodes[1].score, nodes[i].score);
      RangeMonotone(range, nodes[i].score, nodes[length].score);
    }
    forall i | 1 <= i < |nodes| && EmptyRange(range) ensures !InRange(range, nodes[i].score) {
      EmptyRangeEmpty(range, nodes[i].score);
    }
  }

  class List {
    var header: Node
    var tail: Option<Node>
    var length: nat
    var level: nat
    var links: Memory
    var back: Links
    var used: nat
    ghost var nodes: seq<Node>

    ghost predicate Valid()
      reads this
    {
      Shaped(nodes, links, back, used, level) && Ends(nodes, header, length, tail)
    }

    constructor ()
      ensures Valid() && |nodes| == 1
    {
      var h := Node(0, MAXLEVEL, Fin(0.0), None);
      header := h;
      tail, length, level, used := None, 0, 1, 1;
      links, back := map[h := seq(MAXLEVEL, _ => Level(None, 0))], map[h := None];
      nodes := [h];
      new;
      EmptyList(nodes, links);
    }

    lemma ValidFacts()
      requires Valid()
      ensures |nodes| > 0 && nodes[0] == header && header.height == MAXLEVEL && 1 <= level <= MAXLEVEL
      ensures header in links && |links[header]| == MAXLEVEL
    {
      ShapedFacts(nodes, links, back, used, level);
    }

    lemma ValidParts()
      requires Valid()
      ensures Allocated(nodes, links, back, used) && AllDistinct(nodes) && Backward(back, nodes)
      ensures Ends(nodes, header, length, tail)
      ensures Structured(nodes, Levels(links, nodes), level)
      ensures |nodes| > 0 && nodes[0] == header && length == |nodes| - 1 && 1 <= level <= MAXLEVEL
      ensures Levels(links, nodes)[0] == links[header]
      ensures header in links && |links[header]| == MAXLEVEL
    {
      ShapedFacts(nodes, links, back, used, level);
      hide Structured, Backward, Allocated, AllDistinct;
    }

    /** Deletion, first part: take `x`, the node behind position `p`, out of every level it is
        on and shorten the spans that passed over it. */
    method Unsplice(x: Node, update: seq<Node>, ghost rank: seq<int>, ghost p: nat)
      requires Allocated(nodes, links, back, used) && AllDistinct(nodes)
      requires Cut(nodes, Levels(links, nodes), level, p, update, rank)
      requires p + 1 < |nodes| && x == nodes[p + 1]
      modifies this`links
      ensures Allocated(nodes, links, back, used) && links.Keys == old(links).Keys
      ensures Unspliced(Levels(old(links), nodes), Levels(links, nodes), p + 1, x.height, rank, level)
    {
      hide *;
      ghost var pre := Levels(links, nodes);
      UnspliceStart(nodes, links, level, p, update, rank);
      var i := 0;
      while i < level
        invariant 0 <= i <= level && Allocated(nodes, links, back, used) && links.Keys == old(links).Keys
        invariant Unspliced(pre, Levels(links, nodes), p + 1, x.height, rank, i)
      {
        var u := update[i];
        PredecessorAt(nodes, links, back, used, pre, level, p, update, rank, i);
        UnspliceStep(pre, Levels(links, nodes), p + 1, x.height, rank, i);
        if links[u][i].forward == Some(x) {
          SetCell(u, i, Level(links[x][i].forward, links[u][i].span + (links[x][i].span - 1)), rank[i]);
        } else {
          SetCell(u, i, links[u][i].(span := links[u][i].span - 1), rank[i]);
        }
        i := i + 1;
      }
    }

    /** zslDeleteNode: take `x`, the node at rank p + 1, out of the list. `update` holds the
        last node before it on each level, and still does afterwards. */
    method DeleteNode(x: Node, update: seq<Node>, ghost rank: seq<int>, ghost p: nat)
      requires Valid() && Path(nodes, level, p, update, rank) && p + 1 < |nodes| && x == nodes[p + 1]
      modifies this
      ensures Valid() && nodes == Without(old(nodes), p + 1)
      ensures level <= |update| && level <= |rank| && Path(nodes, level, p, update[..level], rank[..level])
    {
      hide *;
      ValidParts();
      StructuredParts(nodes, Levels(links, nodes), level);
      IsCut(nodes, Levels(links, nodes), level, p, update, rank);
      Unsplice(x, update, rank, p);
      Unlinked(nodes, Levels(old(links), nodes), links, back, used, level, p, update, rank);
      Detached(nodes, back, header, length, tail, p);
      ghost var nodes' := Without(nodes, p + 1);
      AllocatedRemove(nodes, links, back, used, p + 1);
      if links[x][0].forward.Some? {
        var next := links[x][0].forward.value;
        AllocatedBack(nodes', links, back, used, next, back[x]);
        back := back[next := back[x]];
      } else {
        tail := back[x];
      }
      nodes, length := nodes', length - 1;
      Lower(update, rank, p);
    }

    /** Deletion, last part: drop top levels that have become empty. */
    method Lower(ghost update: seq<Node>, ghost rank: seq<int>, ghost p: nat)
      requires Allocated(nodes, links, back, used) && Cut(nodes, Levels(links, nodes), level, p, update, rank)
      requires Backward(back, nodes) && Ends(nodes, header, length, tail)
      modifies this`level
      ensures Valid() && level <= |update| && level <= |rank| && Path(nodes, level, p, update[..level], rank[..level])
    {
      hide *;
      ghost var lv, top := Levels(links, nodes), level;
      HeaderLevels(nodes, links, back, used, level, header, length, tail, p, update, rank);
      assert update[..level] == update && rank[..level] == rank;
      while level > 1 && links[header][level - 1].forward == None
        invariant 1 <= level <= top && Cut(nodes, lv, level, p, update[..level], rank[..level])
        decreases level
      {
        LowerOne(nodes, lv, level, p, update[..level], rank[..level]);
        assert update[..level][..level - 1] == update[..level - 1] && rank[..level][..level - 1] == rank[..level - 1];
        level := level - 1;
      }
      CutDone(nodes, lv, level, p, update[..level], rank[..level]);
      IsValid();
    }

    /** zslDelete: take out the node with this score and element, if there is one. */
    method Delete(score: Score, ele: Ele) returns (found: bool, ghost q: nat)
      requires Valid()
      modifies this
      ensures Valid() && (found <==> !Absent(old(nodes), score, ele))
      ensures !found ==> nodes == old(nodes)
      ensures found ==> 1 <= q < |old(nodes)| && nodes == Without(old(nodes), q)
      ensures found ==> old(nodes)[q].score == score && old(nodes)[q].ele == Some(ele)
    {
      hide *;
      var update, rank;
      ghost var p;
      update, rank, p := Place(score, ele);
      ValidParts();
      PathBottom(nodes, links, back, used, level, p, update, rank);
      StructuredParts(nodes, Levels(links, nodes), level);
      OnlyBehind(nodes, level, p, score, ele);
      q := p + 1;
      var x := links[update[0]][0].forward;
      if x.Some? && x.value.ele.Some? { CompareZero(x.value.ele.value, ele); }
      if x.Some? && x.value.score == score && x.value.ele.Some? && Compare(x.value.ele.value, ele) == 0 {
        DeleteNode(x.value, update, rank, p);
        return true, q;
      }
      return false, q;
    }

    /** zslIsInRange. When it says no, no node is in the range. */
    method IsInRange(range: Range) returns (r: bool)
      requires Valid()
      ensures r ==>
        length > 0 && LteMax(range, nodes[1].score) && GteMin(range, nodes[length].score) && !EmptyRange(range)
      ensures !r ==> NoneInRange(nodes, range)
    {
      hide *;
      ValidParts();
      NodeScores(nodes, links, level, header, length, tail, range);
      if EmptyRange(range) { return false; }
      if tail.None? || !GteMin(range, tail.value.score) { return false; }
      var first := links[header][0].forward;
      if first.None? || !LteMax(range, first.value.score) { return false; }
      return true;
    }

    /** zslFirstInRange: the first node in the range, if there is one. */
    method FirstInRange(range: Range) returns (x: Option<Node>, ghost q: nat)
      requires Valid()
      ensures x.None? ==> NoneInRange(nodes, range)
      ensures x.Some? ==> FirstOf(nodes, range, q) && x.value == nodes[q]
    {
      hide *;
      q := 0;
      var some := IsInRange(range);
      if !some { return None, q; }
      ValidParts();
      StructuredParts(nodes, Levels(links, nodes), level);
      ghost var p := MinPivot(nodes, level, range);
      var update, rank := Descend(BelowMin(range), p);
      PathBottom(nodes, links, back, used, level, p, update, rank);
      FirstBehind(nodes, level, p, range);
      x, q := links[update[0]][0].forward, p + 1;
      if !LteMax(range, x.value.score) { return None, q; }
    }

    /** zslLastInRange: the last node in the range, if there is one. */
    method LastInRange(range: Range) returns (x: Option<Node>, ghost q: nat)
      requires Valid()
      ensures x.None? ==> NoneInRange(nodes, range)
      ensures x.Some? ==> LastOf(nodes, range, q) && x.value == nodes[q]
    {
      hide *;
      q := 0;
      var some := IsInRange(range);
      if !some { return None, q; }
      ValidParts();
      StructuredParts(nodes, Levels(links, nodes), level);
      ghost var p := MaxPivot(nodes, level, range);
      var update, rank := Descend(UpToMax(range), p);
      PathBottom(nodes, links, back, used, level, p, update, rank);
      LastBefore(nodes, level, p, range);
      x, q := Some(update[0]), p;
      if !GteMin(range, x.value.score) { return None, q; }
    }

    /** zslGetRank: with `p` the position of the last node not behind the key, it finds the
        element exactly when that is the element of the last node up to `p` on some level. That
        is so for a node with this score, but may be so for one with a smaller score. */
    method GetRank(score: Score, ele: Ele) returns (rank: nat, ghost p: nat)
      requires Valid()
      ensures Pivot(nodes, UpToTest(score, ele), p)
      ensures rank > 0 <==> Seen(nodes, level, p, ele)
      ensures rank > 0 ==> rank <= p < |nodes| && nodes[rank].ele == Some(ele)
      ensures rank == 0 ==> Absent(nodes, score, ele)
    {
      hide *;
      ValidParts();
      StructuredParts(nodes, Levels(links, nodes), level);
      p := UpToPivot(nodes, level, score, ele);
      PivotFacts(nodes, UpToTest(score, ele), p);
      HeaderOf(nodes, level);
      var x, i, crossed := header, level, 0;
      rank := 0;
      while i > 0
        invariant 0 <= i <= level && rank <= p < |nodes| && x == nodes[rank] && x.height >= i
        invariant i == 0 ==> rank == p && x.ele != Some(ele)
        invariant forall l :: i <= l < level ==> !SeenAt(nodes, p, l, ele)
      {
        i := i - 1;
        x, crossed := Forward(x, i, UpToTest(score, ele), p, rank);
        OnPathFacts(nodes, p, i, x, rank + crossed);
        SeenIs(nodes, p, i, x, rank + crossed, ele);
        rank := rank + crossed;
        if x.ele.Some? {
          CompareZero(x.ele.value, ele);
          if Compare(x.ele.value, ele) == 0 {
            SeenFrom(nodes, level, p, i, ele);
            return;
          }
        }
        if i == 0 { BottomOnPath(nodes, level, p, x, rank); }
      }
      NotAtPivot(nodes, level, p, score, ele);
      NotSeen(nodes, level, p, ele);
      return 0, p;
    }

    /** Go forward on level `i` while the rank reached stays below `limit`. */
    method ForwardRank(x0: Node, i: nat, limit: nat, r: nat, ghost p: nat) returns (x: Node, rank: nat)
      requires Valid() && i < level && RankPivot(nodes, limit, p)
      requires r <= p && x0 == nodes[r] && x0.height > i
      ensures p < |nodes| && nodes[0].height > i && OnPath(nodes, p, i, x, rank) && x.height > i
    {
      hide *;
      RankPivotFacts(nodes, limit, p);
      ValidFacts();
      x, rank := x0, r;
      LinkAt(rank, i);
      while links[x][i].forward.Some? && rank + links[x][i].span < limit
        invariant rank <= p && x == nodes[rank] && x.height > i && x in links && i < |links[x]|
        decreases p - rank
      {
        LinkAt(rank, i);
        rank, x := rank + links[x][i].span, links[x][i].forward.value;
        LinkAt(rank, i);
      }
      LinkAt(rank, i);
      OnPathAt(nodes, p, i, rank);
    }

    /** The descent by rank: on each level the last node whose rank is below `limit`. */
    method DescendRank(limit: nat, ghost p: nat) returns (update: seq<Node>, traversed: nat, ghost rank: seq<int>)
      requires Valid() && RankPivot(nodes, limit, p)
      ensures Path(nodes, level, p, update, rank) && traversed == p
    {
      hide *;
      RankPivotFacts(nodes, limit, p);
      ValidFacts();
      ValidParts();
      StructuredParts(nodes, Levels(links, nodes), level);
      var x, i := header, level;
      traversed := 0;
      update, rank := seq(i, _ => x), seq(i, _ => 0);
      while i > 0
        invariant 0 <= i <= level && |update| == |rank| == level
        invariant traversed <= p && x == nodes[traversed] && x.height >= i
        invariant forall l :: i <= l < level ==> OnPath(nodes, p, l, update[l], rank[l])
        invariant i == 0 ==> traversed == p
      {
        i := i - 1;
        x, traversed := ForwardRank(x, i, limit, traversed, p);
        OnPathFacts(nodes, p, i, x, traversed);
        if i == 0 { BottomOnPath(nodes, level, p, x, traversed); }
        update, rank := update[i := x], rank[i := traversed];
      }
      PathIs(nodes, level, p, update, rank);
    }

    /** zslGetElementByRank; rank 0 gives the header. */
    method GetElementByRank(rank: nat) returns (r: Option<Node>)
      requires Valid()
      ensures r == if rank < |nodes| then Some(nodes[rank]) else None
    {
      hide *;
      ValidParts();
      StructuredParts(nodes, Levels(links, nodes), level);
      HeaderOf(nodes, level);
      ghost var p := RankPivotOf(nodes, rank + 1);
      RankPivotFacts(nodes, rank + 1, p);
      var x, i := header, level;
      var traversed: nat := 0;
      while i > 0
        invariant 0 <= i <= level && traversed <= p < |nodes| && x == nodes[traversed] && x.height >= i
        invariant i == 0 ==> traversed == p != rank
      {
        i := i - 1;
        x, traversed := ForwardRank(x, i, rank + 1, traversed, p);
        OnPathFacts(nodes, p, i, x, traversed);
        if traversed == rank { return Some(x); }
        if i == 0 { BottomOnPath(nodes, level, p, x, traversed); }
      }
      return None;
    }

    lemma IsValid()
      requires Allocated(nodes, links, back, used) && Structured(nodes, Levels(links, nodes), level)
      requires Backward(back, nodes)
      requires Ends(nodes, header, length, tail)
      ensures Valid()
    {
      hide Allocated, Structured, Backward, Ends;
    }

    /** What the node at position `q` holds on level `i`. */
    lemma LinkAt(q: nat, i: nat)
      requires Valid() && q < |nodes| && i < nodes[q].height
      ensures nodes[q] in links && i < |links[nodes[q]]|
      ensures var n := Next(Heights(nodes), i, q);
              var c := links[nodes[q]][i];
              && q < n <= |nodes| && (c.forward.None? <==> n == |nodes|)
              && (c.forward.Some? ==>
                  c.forward.value == nodes[n] && nodes[n].height > i && (i < level ==> c.span == n - q))
    {
      ShapedFacts(nodes, links, back, used, level);
      LinkedAt(nodes, Levels(links, nodes), level, q, i);
      hide Next, Shaped, Linked, Structured, Ordered;
    }

    /** Go forward on level `i` while the next node passes the test; `crossed` is the rank
        distance gone. */
    method Forward(x0: Node, i: nat, before: Node -> bool, ghost p: nat, ghost r: nat) returns (x: Node, crossed: int)
      requires Valid() && Pivot(nodes, before, p) && i < level
      requires r <= p && r < |nodes| && x0 == nodes[r] && x0.height > i
      ensures p < |nodes| && nodes[0].height > i && OnPath(nodes, p, i, x, r + crossed) && x.height > i
    {
      hide *;
      ValidFacts();
      x, crossed := x0, 0;
      ghost var q := r;
      PivotFacts(nodes, before, p);
      LinkAt(q, i);
      while links[x][i].forward.Some? && before(links[x][i].forward.value)
        invariant q <= p && x == nodes[q] && x.height > i && q == r + crossed && x in links && i < |links[x]|
        decreases p - q
      {
        LinkAt(q, i);
        crossed := crossed + links[x][i].span;
        x := links[x][i].forward.value;
        q := Next(Heights(nodes), i, q);
        PivotAt(nodes, before, p, q);
        LinkAt(q, i);
      }
      LinkAt(q, i);
      if links[x][i].forward.Some? { PivotAt(nodes, before, p, Next(Heights(nodes), i, q)); }
      OnPathAt(nodes, p, i, q);
    }

    /** The descent every operation begins with: on each level, from the top, go forward while
        the next node is on the near side of the cut. `before` is the test the operation makes
        on the next node; `p` is the last position that passes it. */
    method Descend(before: Node -> bool, ghost p: nat) returns (update: seq<Node>, rank: seq<int>)
      requires Valid() && Pivot(nodes, before, p)
      ensures Path(nodes, level, p, update, rank)
    {
      hide *;
      ValidFacts();
      PivotFacts(nodes, before, p);
      var x, i := header, level;
      update, rank := seq(i, _ => x), seq(i, _ => 0);
      while i > 0
        invariant 0 <= i <= level && |update| == |rank| == level
        invariant i == level ==> x == header
        invariant forall l :: i <= l < level ==> OnPath(nodes, p, l, update[l], rank[l])
        invariant i < level ==> x == update[i]
      {
        i := i - 1;
        var above := if i == level - 1 then 0 else rank[i + 1];
        if i < level - 1 { OnPathFacts(nodes, p, i + 1, update[i + 1], rank[i + 1]); }
        var crossed;
        x, crossed := Forward(x, i, before, p, above);
        rank := rank[i := above + crossed];
        update := update[i := x];
      }
      PathIs(nodes, level, p, update, rank);
    }

    /** Write one cell of a listed node's level array. */
    method SetCell(u: Node, i: nat, v: Level, ghost r: nat)
      requires Allocated(nodes, links, back, used) && AllDistinct(nodes) && r < |nodes| && u == nodes[r]
      requires u in links && i < |links[u]|
      modifies this`links
      ensures links == old(links)[u := old(links)[u][i := v]] && Allocated(nodes, links, back, used)
      ensures Levels(links, nodes) == Levels(old(links), nodes)[r := Levels(old(links), nodes)[r][i := v]]
    {
      CellWritten(nodes, links, back, used, r, i, v);
      hide *;
      links := links[u := links[u][i := v]];
    }

    /** Insertion, first part: raise the list to the new node's height. */
    method Raise(lvl: nat, update0: seq<Node>, rank0: seq<int>, ghost p: nat)
      returns (update: seq<Node>, rank: seq<int>)
      requires Valid() && Path(nodes, level, p, update0, rank0) && 1 <= lvl <= MAXLEVEL
      modifies this`level, this`links
      ensures lvl <= level <= MAXLEVEL && (level == lvl || level == old(level))
      ensures Allocated(nodes, links, back, used) && Cut(nodes, Levels(links, nodes), level, p, update, rank)
      ensures lvl < level ==> Next(Heights(nodes), level - 1, 0) < |nodes|
      ensures links.Keys == old(links).Keys
    {
      hide *;
      ValidParts();
      ghost var lv := Levels(links, nodes);
      PathLength(nodes, level, p, update0, rank0);
      RaisedNone(lv, length, level);
      LongerNone(header, update0, rank0);
      update, rank := update0, rank0;
      var i := level;
      while i < lvl
        invariant level == old(level) <= i && (i <= lvl || i == level)
        invariant Longer(header, update0, rank0, update, rank, i) && header in links && |links[header]| == MAXLEVEL
        invariant Allocated(nodes, links, back, used) && links.Keys == old(links).Keys
        invariant RaisedTo(lv, Levels(links, nodes), length, level, i)
      {
        LongerStep(header, update0, rank0, update, rank, i);
        RaisedStep(lv, Levels(links, nodes), length, level, i);
        rank := rank + [0];
        update := update + [header];
        SetCell(header, i, links[header][i].(span := length), 0);
        i := i + 1;
      }
      RaisedCut(nodes, lv, Levels(links, nodes), length, level, i, p, update0, rank0, update, rank);
      level := i;
    }

    /** Insertion, second part: link `x` into every level it is on and lengthen the spans that
        pass over it. `update` holds the last node before it on each level. */
    method Splice(x: Node, update: seq<Node>, rank: seq<int>, ghost p: nat)
      requires Allocated(nodes, links, back, used) && AllDistinct(nodes)
      requires Cut(nodes, Levels(links, nodes), level, p, update, rank)
      requires x !in nodes && x in links && |links[x]| == x.height && 1 <= x.height <= level
      modifies this`links
      ensures Allocated(nodes, links, back, used) && links.Keys == old(links).Keys
      ensures Spliced(Levels(old(links), nodes), Levels(links, nodes), x, x.height, p, rank, level)
      ensures TakesOver(Levels(old(links), nodes), links[x], x.height, p, rank, level)
    {
      hide *;
      SpliceStart(nodes, links, back, used, level, p, update, rank);
      ghost var pre := Levels(links, nodes);
      NothingSpliced(pre, links[x], x, x.height, p, rank);
      LinkLevels(x, update, rank, p, pre);
      LengthenLevels(x, update, rank, p, pre);
      TookOver(pre, links[x], x.height, p, rank, level);
    }

    /** The loop over the levels the new node is on. */
    method LinkLevels(x: Node, update: seq<Node>, rank: seq<int>, ghost p: nat, ghost pre: seq<seq<Level>>)
      requires Allocated(nodes, links, back, used) && AllDistinct(nodes) && Cut(nodes, pre, level, p, update, rank)
      requires x !in nodes && x in links && |links[x]| == x.height && 1 <= x.height <= level
      requires |update| == |rank| == level && rank[0] == p
      requires Spliced(pre, Levels(links, nodes), x, x.height, p, rank, 0)
      requires TakesOver(pre, links[x], x.height, p, rank, 0)
      modifies this`links
      ensures Allocated(nodes, links, back, used) && links.Keys == old(links).Keys
      ensures Spliced(pre, Levels(links, nodes), x, x.height, p, rank, x.height)
      ensures TakesOver(pre, links[x], x.height, p, rank, x.height)
    {
      hide *;
      var i := 0;
      while i < x.height
        invariant 0 <= i <= x.height && Allocated(nodes, links, back, used) && links.Keys == old(links).Keys
        invariant Spliced(pre, Levels(links, nodes), x, x.height, p, rank, i)
        invariant TakesOver(pre, links[x], x.height, p, rank, i)
      {
        var u := update[i];
        UpdatedAt(nodes, links, back, used, pre, x, level, p, update, rank, i);
        SpliceStep(pre, Levels(links, nodes), x, x.height, p, rank, i);
        TakeOverStep(pre, links[x], x.height, p, rank, i);
        var v := Level(links[u][i].forward, links[u][i].span - (rank[0] - rank[i]));
        OtherWritten(nodes, links, back, used, x, links[x][i := v]);
        links := links[x := links[x][i := v]];
        SetCell(u, i, Level(Some(x), (rank[0] - rank[i]) + 1), rank[i]);
        i := i + 1;
      }
    }

    /** The loop over the levels above it. */
    method LengthenLevels(x: Node, update: seq<Node>, rank: seq<int>, ghost p: nat, ghost pre: seq<seq<Level>>)
      requires Allocated(nodes, links, back, used) && AllDistinct(nodes) && Cut(nodes, pre, level, p, update, rank)
      requires x !in nodes && x in links && 1 <= x.height <= level && |update| == |rank| == level
      requires Spliced(pre, Levels(links, nodes), x, x.height, p, rank, x.height)
      requires TakesOver(pre, links[x], x.height, p, rank, x.height)
      modifies this`links
      ensures Allocated(nodes, links, back, used) && links.Keys == old(links).Keys
      ensures Spliced(pre, Levels(links, nodes), x, x.height, p, rank, level)
      ensures TakesOver(pre, links[x], x.height, p, rank, x.height)
    {
      hide *;
      var i := x.height;
      while i < level
        invariant x.height <= i <= level && Allocated(nodes, links, back, used) && links.Keys == old(links).Keys
        invariant Spliced(pre, Levels(links, nodes), x, x.height, p, rank, i)
        invariant TakesOver(pre, links[x], x.height, p, rank, x.height)
      {
        var u := update[i];
        UpdatedAt(nodes, links, back, used, pre, x, level, p, update, rank, i);
        SpliceStep(pre, Levels(links, nodes), x, x.height, p, rank, i);
        SetCell(u, i, links[u][i].(span := links[u][i].span + 1), rank[i]);
        i := i + 1;
      }
    }

    /** zslInsert up to the forward links: find the place, raise the list, make the node and
        splice it in. `last` is the node before it. */
    method SpliceIn(score: Score, ele: Ele, lvl: nat) returns (x: Node, last: Node, ghost p: nat)
      requires Valid() && 1 <= lvl <= MAXLEVEL && Absent(nodes, score, ele)
      modifies this`level, this`links, this`back, this`used
      ensures x.score == score && x.ele == Some(ele) && x.height == lvl && x in links && x in back
      ensures Elsewhere(nodes, x) && x !in nodes && Backward(back, nodes)
      ensures p < |nodes| && last == nodes[p] && Pivot(nodes, KeyTest(score, ele), p)
      ensures Allocated(nodes, links, back, used)
      ensures Structured(With(nodes, p + 1, x), Levels(links, With(nodes, p + 1, x)), level)
    {
      hide *;
      ValidParts();
      var update, rank;
      update, rank, p := Place(score, ele);
      update, rank := Raise(lvl, update, rank, p);
      ghost var pre := Levels(links, nodes);
      SpliceStart(nodes, links, back, used, level, p, update, rank);
      UpdatedFirst(nodes, pre, level, p, update, rank);
      x, last := Node(used, lvl, score, Some(ele)), update[0];
      Make(x, seq(lvl, _ => Level(None, 0)));
      Splice(x, update, rank, p);
      SplicedIn(nodes, pre, links, level, score, ele, p, x, update, rank);
    }

    /** The last node on each level whose key is smaller. */
    method Place(score: Score, ele: Ele) returns (update: seq<Node>, rank: seq<int>, ghost p: nat)
      requires Valid()
      ensures Pivot(nodes, KeyTest(score, ele), p) && Path(nodes, level, p, update, rank)
    {
      hide *;
      ValidParts();
      StructuredParts(nodes, Levels(links, nodes), level);
      p := KeyPivot(nodes, level, score, ele);
      update, rank := Descend(KeyTest(score, ele), p);
    }

    /** zslCreateNode: memory for a node at an address not in use. */
    method Make(x: Node, v: seq<Level>)
      requires Allocated(nodes, links, back, used) && x.address == used && Backward(back, nodes)
      modifies this`links, this`back, this`used
      ensures Elsewhere(nodes, x) && x !in nodes && x in links && links[x] == v && x in back && used == old(used) + 1
      ensures Allocated(nodes, links, back, used) && Levels(links, nodes) == Levels(old(links), nodes)
      ensures Backward(back, nodes)
    {
      NewNode(nodes, links, back, used, x, v);
      hide *;
      links, back, used := links[x := v], back[x := None], used + 1;
    }

    /** zslInsert, with the random level `lvl` as a parameter. The node goes behind every node
        with a smaller key and before the others. */
    method Insert(score: Score, ele: Ele, lvl: nat) returns (x: Node, ghost p: nat)
      requires Valid() && 1 <= lvl <= MAXLEVEL && Absent(nodes, score, ele)
      modifies this
      ensures Valid() && x.score == score && x.ele == Some(ele) && x.height == lvl
      ensures Elsewhere(old(nodes), x) && x !in old(nodes)
      ensures p < |old(nodes)| && nodes == With(old(nodes), p + 1, x)
    {
      hide *;
      ValidParts();
      var last;
      x, last, p := SpliceIn(score, ele, lvl);
      ghost var nodes' := With(nodes, p + 1, x);
      AllocatedInsert(nodes, links, back, used, p + 1, x);
      Attached(nodes, back, p, x);
      AttachedEnds(nodes, header, length, tail, p, x);
      BottomLinkAt(nodes', links, level, p + 1);
      AllocatedBack(nodes', links, back, used, x, if last == header then None else Some(last));
      back := back[x := if last == header then None else Some(last)];
      if links[x][0].forward.Some? {
        var next := links[x][0].forward.value;
        AllocatedBack(nodes', links, back, used, next, Some(x));
        back := back[next := Some(x)];
      } else {
        tail := Some(x);
      }
      length, nodes := length + 1, nodes';
      IsValid();
    }
  }

  /** A list of one element of score 0, asked for its rank under score 1, names it. */
  method RankUnderOtherScore(ele: Ele, lvl: nat) returns (rank: nat)
    requires 1 <= lvl <= MAXLEVEL
    ensures rank == 1
  {
    hide *;
    var list := new List();
    ghost var header := list.nodes[0];
    OneNode(list.nodes, Fin(0.0), ele);
    var x;
    ghost var p, q;
    x, p := list.Insert(Fin(0.0), ele, lvl);
    rank, q := list.GetRank(Fin(1.0), ele);
    list.ValidFacts();
    TwoNodesSeen(header, x, list.nodes, list.level, q, ele);
  }

  lemma OneNode(nodes: seq<Node>, score: Score, ele: Ele)
    requires |nodes| == 1
    ensures Absent(nodes, score, ele)
  {}

  lemma TwoNodesSeen(h: Node, x: Node, nodes: seq<Node>, level: nat, q: nat, ele: Ele)
    requires nodes == With([h], 1, x) && x.score == Fin(0.0) && x.ele == Some(ele) && x.height > 0
    requires Pivot(nodes, UpToTest(Fin(1.0), ele), q) && nodes[0].height > 0 && level > 0
    ensures Seen(nodes, level, q, ele)
    ensures |nodes| == 2 && q == 1
  {
    assert nodes[1] == x && UpToTest(Fin(1.0), ele)(x);
    assert Heights(nodes)[1] > 0;
    assert SeenAt(nodes, q, 0, ele);
  }

  /** The spliced list has the structure of one with the node in it. */
  lemma SplicedIn(nodes: seq<Node>, pre: seq<seq<Level>>, links: Memory, level: nat, score: Score, ele: Ele, p: nat,
                  x: Node,
                  update: seq<Node>, rank: seq<int>)
    requires Cut(nodes, pre, level, p, update, rank) && Pivot(nodes, KeyTest(score, ele), p)
    requires Elsewhere(nodes, x) && x !in nodes
    requires x in links && x.score == score && x.ele == Some(ele) && 1 <= x.height <= level
    requires Absent(nodes, score, ele)
    requires x.height < level ==> Next(Heights(nodes), level - 1, 0) < |nodes|
    requires Spliced(pre, Levels(links, nodes), x, x.height, p, rank, level)
    requires TakesOver(pre, links[x], x.height, p, rank, level)
    ensures p < |nodes| && Structured(With(nodes, p + 1, x), Levels(links, With(nodes, p + 1, x)), level)
  {
    AbsentFacts(nodes, score, ele);
    hide *;
    CutParts(nodes, pre, level, p, update, rank);
    PathLength(nodes, level, p, update, rank);
    var nodes', lv := With(nodes, p + 1, x), Levels(links, nodes);
    OrderedFacts(nodes, level);
    SplicedFacts(pre, lv, x, x.height, p, rank, level);
    SplicedLinks(nodes, pre, level, p, update, rank, x, links[x], lv);
    InsertedOrder(nodes, level, score, ele, p, x);
    InsertedTop(nodes, level, p, x);
    LevelsInserted(nodes, links, p + 1, x);
    IsStructured(nodes', Levels(links, nodes'), level);
  }

  lemma LevelsInserted(nodes: seq<Node>, links: Memory, i: nat, x: Node)
    requires i <= |nodes| && x in links
    ensures Levels(links, With(nodes, i, x)) == With(Levels(links, nodes), i, links[x])
  {}

  /** A new node: its address is not in use. */
  lemma NewNode(nodes: seq<Node>, links: Memory, back: Links, used: nat, x: Node, v: seq<Level>)
    requires Allocated(nodes, links, back, used) && x.address == used && Backward(back, nodes)
    ensures var links' := links[x := v];
            && x !in nodes && x !in links && Allocated(nodes, links', back[x := None], used + 1)
               && Levels(links', nodes) == Levels(links, nodes)
            && Backward(back[x := None], nodes)
  {}

  lemma AllocatedInsert(nodes: seq<Node>, links: Memory, back: Links, used: nat, p: nat, x: Node)
    requires Allocated(nodes, links, back, used) && x in links && x in back && p <= |nodes|
    ensures Allocated(With(nodes, p, x), links, back, used)
  {}

  /** The back pointers of the new node and the one behind it complete those of the list. */
  lemma Attached(nodes: seq<Node>, back: Links, p: nat, x: Node)
    requires Backward(back, nodes) && AllDistinct(nodes) && x !in nodes && p < |nodes|
    ensures var back' := back[x := if nodes[p] == nodes[0] then None else Some(nodes[p])];
            && (p + 1 == |nodes| ==> Backward(back', With(nodes, p + 1, x)))
            && (p + 1 < |nodes| ==> Backward(back'[nodes[p + 1] := Some(x)], With(nodes, p + 1, x)))
  {
    var nodes' := With(nodes, p + 1, x);
    var back' := back[x := if nodes[p] == nodes[0] then None else Some(nodes[p])];
    var back'' := if p + 1 == |nodes| then back' else back'[nodes[p + 1] := Some(x)];
    hide AllDistinct, Behind, With;
    forall r | 0 <= r < |nodes'| ensures nodes'[r] in back'' && back''[nodes'[r]] == Behind(nodes', r) {
      BehindInserted(nodes, p, x, r);
      if r < p || r > p + 1 { TwoNodes(nodes, p + 1, if r < p then r else r - 1); }
      if r == p { TwoNodes(nodes, p + 1, p); }
      TwoNodes(nodes, 0, p);
    }
  }

  /** The back pointers of a list with a node inserted behind position `p`. */
  lemma BehindInserted(nodes: seq<Node>, p: nat, x: Node, r: nat)
    requires p < |nodes| && r <= |nodes|
    ensures var nodes' := With(nodes, p + 1, x);
            && (r <= p ==> nodes'[r] == nodes[r] && Behind(nodes', r) == Behind(nodes, r))
            && (r == p + 1 ==> nodes'[r] == x && Behind(nodes', r) == if p == 0 then None else Some(nodes[p]))
            && (r == p + 2 ==> nodes'[r] == nodes[p + 1] && Behind(nodes', r) == Some(x))
            && (r > p + 2 ==> nodes'[r] == nodes[r - 1] && Behind(nodes', r) == Behind(nodes, r - 1))
  {
    hide With;
  }

  lemma TwoNodes(nodes: seq<Node>, i: nat, j: nat)
    requires AllDistinct(nodes) && j < |nodes|
    ensures i < |nodes| ==> (nodes[i] == nodes[j] <==> i == j)
  {
    assert i < |nodes| && i < j ==> nodes[i] != nodes[j];
    assert i < |nodes| && j < i ==> nodes[j] != nodes[i];
  }

  lemma AttachedEnds(nodes: seq<Node>, header: Node, length: nat, tail: Option<Node>, p: nat, x: Node)
    requires Ends(nodes, header, length, tail) && p < |nodes|
    ensures p + 1 == |nodes| ==> Ends(With(nodes, p + 1, x), header, length + 1, Some(x))
    ensures p + 1 < |nodes| ==> Ends(With(nodes, p + 1, x), header, length + 1, tail)
  {}

  lemma UnspliceStart(nodes: seq<Node>, links: Memory, level: nat, p: nat, update: seq<Node>, rank: seq<int>)
    requires Cut(nodes, Levels(links, nodes), level, p, update, rank) && p + 1 < |nodes|
    ensures |update| == |rank| == level
    ensures Unspliced(Levels(links, nodes), Levels(links, nodes), p + 1, nodes[p + 1].height, rank, 0)
  {
    hide *;
    CutParts(nodes, Levels(links, nodes), level, p, update, rank);
    LinkedFacts(nodes, Levels(links, nodes), level);
    PathFacts(nodes, level, p, update, rank);
    NothingUnspliced(Levels(links, nodes), p + 1, nodes[p + 1].height, rank);
  }

  /** What the node before the one to go holds on level `i`, and what that one holds. */
  lemma PredecessorAt(nodes: seq<Node>, links: Memory, back: Links, used: nat, pre: seq<seq<Level>>, level: nat, p: nat,
                      update: seq<Node>, rank: seq<int>, i: nat)
    requires Allocated(nodes, links, back, used) && Cut(nodes, pre, level, p, update, rank) && i < level
    requires p + 1 < |nodes|
    requires Unspliced(pre, Levels(links, nodes), p + 1, nodes[p + 1].height, rank, i)
    ensures var x := nodes[p + 1];
            && |update| == |rank| == level && 0 <= rank[i] <= p && p + 1 < |pre| && update[i] == nodes[rank[i]]
            && update[i] in links && x in links && i < |pre[rank[i]]| == |links[update[i]]|
               && links[update[i]][i] == pre[rank[i]][i]
            && (links[update[i]][i].forward == Some(x) <==> i < x.height)
            && (i < x.height ==> i < |links[x]| && i < |pre[p + 1]| && links[x][i] == pre[p + 1][i])
  {
    AllocatedFacts(nodes, links, back, used);
    hide *;
    var x, lv := nodes[p + 1], Levels(links, nodes);
    CutParts(nodes, pre, level, p, update, rank);
    PathFacts(nodes, level, p, update, rank);
    LinkedFacts(nodes, pre, level);
    PredecessorPoints(nodes, pre, level, p, update, rank, i);
    UnsplicedFacts(pre, lv, p + 1, x.height, rank, i);
    UnsplicedAt(pre, lv, p + 1, x.height, rank, i, rank[i], i);
    UnsplicedAt(pre, lv, p + 1, x.height, rank, i, p + 1, i);
    UnsplicedBeyond(pre[rank[i]][i], if i < x.height then pre[p + 1][i] else pre[rank[i]][i], x.height, true, i);
    if i < x.height { UnsplicedBeyond(pre[p + 1][i], pre[p + 1][i], x.height, false, i); }
  }

  lemma Unlinked(nodes: seq<Node>, pre: seq<seq<Level>>, links: Memory, back: Links, used: nat, level: nat, p: nat,
                 update: seq<Node>, rank: seq<int>)
    requires Allocated(nodes, links, back, used) && Cut(nodes, pre, level, p, update, rank) && p + 1 < |nodes|
    requires Unspliced(pre, Levels(links, nodes), p + 1, nodes[p + 1].height, rank, level)
    ensures var x, nodes' := nodes[p + 1], Without(nodes, p + 1);
            && Cut(nodes', Levels(links, nodes'), level, p, update, rank)
            && x in links && |links[x]| > 0 && (links[x][0].forward.Some? <==> p + 2 < |nodes|)
            && (p + 2 < |nodes| ==> links[x][0].forward.value == nodes[p + 2])
  {
    AllocatedFacts(nodes, links, back, used);
    hide *;
    CutParts(nodes, pre, level, p, update, rank);
    CutOut(nodes, pre, Levels(links, nodes), level, p, update, rank);
    LevelsRemoved(nodes, links, p + 1);
    AtIs(nodes, p + 2);
  }

  lemma AtIs(nodes: seq<Node>, i: nat)
    ensures At(nodes, i) == if i < |nodes| then Some(nodes[i]) else None
  {}

  lemma LevelsRemoved(nodes: seq<Node>, links: Memory, q: nat)
    requires q < |nodes|
    ensures Levels(links, Without(nodes, q)) == Without(Levels(links, nodes), q)
  {}

  lemma AllocatedRemove(nodes: seq<Node>, links: Memory, back: Links, used: nat, q: nat)
    requires Allocated(nodes, links, back, used) && q < |nodes|
    ensures Allocated(Without(nodes, q), links, back, used)
  {}

  /** The back pointers, length and tail after the node behind `p` is gone. */
  lemma Detached(nodes: seq<Node>, back: Links, header: Node, length: nat, tail: Option<Node>, p: nat)
    requires Backward(back, nodes) && AllDistinct(nodes) && p + 1 < |nodes| && Ends(nodes, header, length, tail)
    ensures length > 0 && nodes[p + 1] in back
    ensures var nodes', behind := Without(nodes, p + 1), back[nodes[p + 1]];
            && (p + 2 == |nodes| ==> Backward(back, nodes') && Ends(nodes', header, length - 1, behind))
            && (p + 2 < |nodes| ==>
                Backward(back[nodes[p + 2] := behind], nodes') && Ends(nodes', header, length - 1, tail))
  {
    var nodes', behind := Without(nodes, p + 1), back[nodes[p + 1]];
    var back' := if p + 2 < |nodes| then back[nodes[p + 2] := behind] else back;
    hide Without, Ends, Behind;
    assert forall j, k :: 0 <= j < |nodes| && 0 <= k < |nodes| && j != k ==> nodes[j] != nodes[k];
    forall r | 0 <= r < |nodes'| ensures nodes'[r] in back' && back'[nodes'[r]] == Behind(nodes', r) {
      BehindRemoved(nodes, p + 1, r);
    }
    DetachedEnds(nodes, header, length, tail, p);
  }

  lemma BehindRemoved(nodes: seq<Node>, q: nat, r: nat)
    requires 0 < q < |nodes| && r < |nodes| - 1
    ensures var nodes' := Without(nodes, q);
            && (r < q ==> nodes'[r] == nodes[r] && Behind(nodes', r) == Behind(nodes, r))
            && (r == q ==> nodes'[r] == nodes[r + 1] && Behind(nodes', r) == Behind(nodes, r))
            && (r > q ==> nodes'[r] == nodes[r + 1] && Behind(nodes', r) == Behind(nodes, r + 1))
  {
    hide Without;
  }

  lemma DetachedEnds(nodes: seq<Node>, header: Node, length: nat, tail: Option<Node>, p: nat)
    requires p + 1 < |nodes| && Ends(nodes, header, length, tail)
    ensures length > 0
    ensures p + 2 == |nodes| ==> Ends(Without(nodes, p + 1), header, length - 1, Behind(nodes, p + 1))
    ensures p + 2 < |nodes| ==> Ends(Without(nodes, p + 1), header, length - 1, tail)
  {
    hide Without;
  }

  lemma HeaderLevels(nodes: seq<Node>, links: Memory, back: Links, used: nat, level: nat, header: Node, length: nat,
                     tail: Option<Node>,
                     p: nat, update: seq<Node>, rank: seq<int>)
    requires Allocated(nodes, links, back, used) && Cut(nodes, Levels(links, nodes), level, p, update, rank)
    requires Ends(nodes, header, length, tail)
    ensures |nodes| > 0 && header in links && Levels(links, nodes)[0] == links[header] && |links[header]| == MAXLEVEL
    ensures 1 <= level <= MAXLEVEL && |update| == |rank| == level
  {
    CutFacts(nodes, Levels(links, nodes), level, p, update, rank);
    hide Cut;
  }

  lemma EmptyList(nodes: seq<Node>, links: Memory)
    requires |nodes| == 1 && nodes[0].height == MAXLEVEL && nodes[0].ele.None?
    requires nodes[0] in links && links[nodes[0]] == seq(MAXLEVEL, _ => Level(None, 0))
    ensures Structured(nodes, Levels(links, nodes), 1)
  {
    var lv := Levels(links, nodes);
    forall r, l | 0 <= r < |nodes| && 0 <= l < nodes[r].height ensures LinkOk(nodes, lv, 1, r, l) {
      assert lv[0][l] == Level(None, 0);
      NextIs(Heights(nodes), l, 0, 1);
    }
  }
}
