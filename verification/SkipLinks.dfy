/** The structure of a skip list as a value: what the level arrays hold for a list of nodes, and
    what splicing a node in or out does to them. */
module SkipLinks {
  import opened ZKeys
  import opened Options
  import opened Seqs
  import opened SkipOrder

  const MAXLEVEL := 32

  /** A node by its address, with the fields set once when it is made; the header has no
      element. Its level array and back pointer, which change, are fields of the list kept by
      node. */
  datatype Node = Node(address: nat, height: nat, score: Score, ele: Option<Ele>)

  datatype Level = Level(forward: Option<Node>, span: int)

  function Heights(nodes: seq<Node>): (hs: seq<nat>)
    ensures |hs| == |nodes| && forall i :: 0 <= i < |nodes| ==> hs[i] == nodes[i].height
  {
    seq(|nodes|, i requires 0 <= i < |nodes| => nodes[i].height)
  }

  function At(nodes: seq<Node>, i: nat): Option<Node> { if i < |nodes| then Some(nodes[i]) else None }

  /** The node's key is below the given one. */
  predicate Before(n: Node, score: Score, ele: Ele)
  {
    n.ele.Some? && Less(n.score, n.ele.value, score, ele)
  }

  /** The test of a search for a key: is the next node before it? */
  function KeyTest(score: Score, ele: Ele): Node -> bool { (n: Node) => Before(n, score, ele) }

  predicate KeyLess(a: Node, b: Node) { b.ele.Some? && Before(a, b.score, b.ele.value) }

  /** `nodes` lists the header and then the nodes in order: each at a different address, the
      elements strictly sorted, no node taller than the list. */
  ghost predicate Ordered(nodes: seq<Node>, level: nat)
  {
    && |nodes| > 0 && nodes[0].height == MAXLEVEL && nodes[0].ele.None? && 1 <= level <= MAXLEVEL
    && (forall i, j :: 0 <= i < j < |nodes| ==> nodes[i].address != nodes[j].address)
    && (forall i :: 1 <= i < |nodes| ==> nodes[i].ele.Some? && 1 <= nodes[i].height <= level)
    && (forall i, j :: 1 <= i < j < |nodes| ==> KeyLess(nodes[i], nodes[j]))
  }

  /** A node at an address none of the listed nodes has. */
  ghost predicate Elsewhere(nodes: seq<Node>, x: Node)
  {
    forall i :: 0 <= i < |nodes| ==> nodes[i].address != x.address
  }

  /** Node `r` holds at level `l` the next node on that level and the rank distance to it. */
  ghost predicate LinkOk(nodes: seq<Node>, lv: seq<seq<Level>>, level: nat, r: nat, l: nat)
    requires r < |nodes| == |lv| && l < |lv[r]|
  {
    && lv[r][l].forward == At(nodes, Next(Heights(nodes), l, r))
    && (l < level ==> lv[r][l].span == Span(Heights(nodes), l, r))
  }

  ghost predicate Linked(nodes: seq<Node>, lv: seq<seq<Level>>, level: nat)
    requires |nodes| == |lv|
  {
    && (forall r :: 0 <= r < |nodes| ==> |lv[r]| == nodes[r].height)
    && (forall r, l :: 0 <= r < |nodes| && 0 <= l < nodes[r].height ==> LinkOk(nodes, lv, level, r, l))
  }

  /** The node a back pointer names: none for the header and the first node. */
  function Behind(nodes: seq<Node>, r: int): Option<Node>
    requires 0 <= r < |nodes|
  {
    if r <= 1 then None else Some(nodes[r - 1])
  }

  /** Header, length and tail of the list with these nodes. */
  ghost predicate Ends(nodes: seq<Node>, header: Node, length: nat, tail: Option<Node>)
  {
    |nodes| > 0 && nodes[0] == header && length == |nodes| - 1
      && tail == if length == 0 then None else Some(nodes[length])
  }

  ghost predicate AllDistinct(nodes: seq<Node>) { forall j, k :: 0 <= j < k < |nodes| ==> nodes[j] != nodes[k] }

  /** The list in the middle of a deletion: order, links and the path to the gap. */
  ghost predicate Cut(nodes: seq<Node>, lv: seq<seq<Level>>, level: nat, p: nat, update: seq<Node>, rank: seq<int>)
  {
    |nodes| == |lv| && Ordered(nodes, level) && Linked(nodes, lv, level) && Path(nodes, level, p, update, rank)
  }

  /** The order of the nodes, their links, and a top level that is in use. */
  ghost predicate Structured(nodes: seq<Node>, lv: seq<seq<Level>>, level: nat)
    requires |nodes| == |lv|
  {
    && Ordered(nodes, level) && Linked(nodes, lv, level)
    && (level > 1 ==> Next(Heights(nodes), level - 1, 0) < |nodes|)
  }

  /** The nodes up to position `p` pass the test and the others fail it. */
  ghost predicate Pivot(nodes: seq<Node>, before: Node -> bool, p: nat)
  {
    p < |nodes| && forall i :: 1 <= i < |nodes| ==> (before(nodes[i]) <==> i <= p)
  }

  /** `x` at rank `r` is the last node on level `l` up to position `p`. */
  ghost predicate OnPath(nodes: seq<Node>, p: nat, l: nat, x: Node, r: int)
    requires p < |nodes| && nodes[0].height > l
  {
    r == Prev(Heights(nodes), l, p) && x == nodes[r]
  }

  /** The last nodes up to position `p` on each level, with their ranks. */
  ghost predicate Path(nodes: seq<Node>, level: nat, p: nat, update: seq<Node>, rank: seq<int>)
  {
    && p < |nodes| && nodes[0].height >= level && |update| == |rank| == level
    && forall l :: 0 <= l < level ==> OnPath(nodes, p, l, update[l], rank[l])
  }

  lemma OrderedFacts(nodes: seq<Node>, level: nat)
    requires Ordered(nodes, level)
    ensures |nodes| > 0 && nodes[0].height == MAXLEVEL && 1 <= level <= MAXLEVEL
    ensures forall i, j :: 0 <= i < j < |nodes| ==> nodes[i] != nodes[j]
    ensures forall i :: 0 <= i < |nodes| ==> nodes[i].height <= MAXLEVEL
  {}

  lemma OnPathFacts(nodes: seq<Node>, p: nat, l: nat, x: Node, r: int)
    requires p < |nodes| && nodes[0].height > l && OnPath(nodes, p, l, x, r)
    ensures 0 <= r <= p && x == nodes[r] && x.height > l
  {}

  lemma PivotFacts(nodes: seq<Node>, before: Node -> bool, p: nat)
    requires Pivot(nodes, before, p)
    ensures p < |nodes|
  {}

  lemma PivotAt(nodes: seq<Node>, before: Node -> bool, p: nat, i: nat)
    requires Pivot(nodes, before, p) && 1 <= i < |nodes|
    ensures before(nodes[i]) <==> i <= p
  {}

  /** The walk on a level stops at the last node up to `p`. */
  lemma OnPathAt(nodes: seq<Node>, p: nat, l: nat, r: nat)
    requires r <= p < |nodes| && nodes[0].height > l && nodes[r].height > l
    requires Next(Heights(nodes), l, r) > p
    ensures OnPath(nodes, p, l, nodes[r], r)
  {
    hide Next, Prev;
    PrevNext(Heights(nodes), l, p, r);
  }

  lemma PathIs(nodes: seq<Node>, level: nat, p: nat, update: seq<Node>, rank: seq<int>)
    requires p < |nodes| && nodes[0].height >= level && |update| == |rank| == level
    requires forall l :: 0 <= l < level ==> OnPath(nodes, p, l, update[l], rank[l])
    ensures Path(nodes, level, p, update, rank)
  {}

  /** A test that a later node passes only if every earlier one does has a pivot. */
  lemma PivotExists(nodes: seq<Node>, before: Node -> bool) returns (p: nat)
    requires |nodes| > 0
    requires forall i, j :: 1 <= i < j < |nodes| && before(nodes[j]) ==> before(nodes[i])
    ensures Pivot(nodes, before, p)
  {
    p := |nodes| - 1;
    while p > 0 && !before(nodes[p])
      invariant p < |nodes|
      invariant forall i :: p < i < |nodes| ==> !before(nodes[i])
    {
      p := p - 1;
    }
  }

  /** Levels above the list's are empty, so the header alone is on them. */
  lemma RaisedLinks(nodes: seq<Node>, lv: seq<seq<Level>>, lv': seq<seq<Level>>, level: nat, lvl: nat)
    requires Ordered(nodes, level) && |lv| == |lv'| == |nodes| && Linked(nodes, lv, level) && level < lvl <= MAXLEVEL
    requires |lv'[0]| == MAXLEVEL && forall r :: 1 <= r < |nodes| ==> lv'[r] == lv[r]
    requires forall l :: 0 <= l < MAXLEVEL ==> lv'[0][l].forward == lv[0][l].forward
    requires forall l :: 0 <= l < MAXLEVEL ==> lv'[0][l].span == if level <= l < lvl then |nodes| - 1 else lv[0][l].span
    ensures Linked(nodes, lv', lvl)
  {
    hide Next, At;
    forall r, l | 0 <= r < |nodes| && 0 <= l < nodes[r].height ensures LinkOk(nodes, lv', lvl, r, l) {
      assert lv[r][l].forward == lv'[r][l].forward;
      assert LinkOk(nodes, lv, level, r, l);
      if level <= l {
        assert r == 0;
        NextIs(Heights(nodes), l, 0, |nodes|);
      }
    }
    assert forall r :: 0 <= r < |nodes| ==> |lv'[r]| == nodes[r].height;
  }

  lemma RaisedPath(nodes: seq<Node>, level: nat, lvl: nat, p: nat, update: seq<Node>, rank: seq<int>,
                   update': seq<Node>, rank': seq<int>)
    requires Ordered(nodes, level) && level < lvl <= MAXLEVEL && Path(nodes, level, p, update, rank)
    requires |update'| == |rank'| == lvl && |update| == |rank| == level
    requires forall l :: 0 <= l < lvl ==> update'[l] == if l < level then update[l] else nodes[0]
    requires forall l :: 0 <= l < lvl ==> rank'[l] == if l < level then rank[l] else 0
    ensures Path(nodes, lvl, p, update', rank')
  {
    hide Prev;
    forall l | 0 <= l < lvl ensures OnPath(nodes, p, l, update'[l], rank'[l]) {
      if l < level {
        assert OnPath(nodes, p, l, update[l], rank[l]);
      } else {
        PrevIs(Heights(nodes), l, p, 0);
      }
    }
  }

  /** The header's spans on the levels from `level` up to `i` are the list's length. */
  ghost predicate RaisedTo(lv: seq<seq<Level>>, post: seq<seq<Level>>, length: nat, level: nat, i: nat)
  {
    && |post| == |lv| > 0 && |post[0]| == |lv[0]| == MAXLEVEL && (forall r :: 1 <= r < |lv| ==> post[r] == lv[r])
    && forall l :: 0 <= l < MAXLEVEL ==> post[0][l] == if level <= l < i then lv[0][l].(span := length) else lv[0][l]
  }

  /** The path continued with the header up to level `i`. */
  ghost predicate Longer(header: Node, update: seq<Node>, rank: seq<int>, update': seq<Node>, rank': seq<int>, i: nat)
  {
    && |update| == |rank| && |update'| == |rank'| == i
    && (forall l :: 0 <= l < i ==> update'[l] == if l < |update| then update[l] else header)
    && forall l :: 0 <= l < i ==> rank'[l] == if l < |rank| then rank[l] else 0
  }

  lemma RaisedNone(lv: seq<seq<Level>>, length: nat, level: nat)
    requires |lv| > 0 && |lv[0]| == MAXLEVEL
    ensures RaisedTo(lv, lv, length, level, level)
  {}

  lemma RaisedStep(lv: seq<seq<Level>>, post: seq<seq<Level>>, length: nat, level: nat, i: nat)
    requires RaisedTo(lv, post, length, level, i) && level <= i < MAXLEVEL
    ensures |post| > 0 && i < |post[0]|
    ensures RaisedTo(lv, post[0 := post[0][i := post[0][i].(span := length)]], length, level, i + 1)
  {}

  lemma LongerNone(header: Node, update: seq<Node>, rank: seq<int>)
    requires |update| == |rank|
    ensures Longer(header, update, rank, update, rank, |update|)
  {}

  lemma LongerStep(header: Node, update: seq<Node>, rank: seq<int>, update': seq<Node>, rank': seq<int>, i: nat)
    requires Longer(header, update, rank, update', rank', i) && i >= |update|
    ensures Longer(header, update, rank, update' + [header], rank' + [0], i + 1)
  {}

  lemma PathLength(nodes: seq<Node>, level: nat, p: nat, update: seq<Node>, rank: seq<int>)
    requires Path(nodes, level, p, update, rank)
    ensures p < |nodes| && |update| == |rank| == level
  {}

  lemma RaisedOrder(nodes: seq<Node>, level: nat, lvl: nat)
    requires Ordered(nodes, level) && level <= lvl <= MAXLEVEL
    ensures Ordered(nodes, lvl)
  {
    hide KeyLess;
  }

  lemma RaisedCut(nodes: seq<Node>, lv: seq<seq<Level>>, post: seq<seq<Level>>, length: nat, level: nat, lvl: nat,
                  p: nat,
                  update: seq<Node>, rank: seq<int>, update': seq<Node>, rank': seq<int>)
    requires |lv| == |nodes| == length + 1 && Structured(nodes, lv, level) && RaisedTo(lv, post, length, level, lvl)
    requires Path(nodes, level, p, update, rank) && level <= lvl <= MAXLEVEL
    requires Longer(nodes[0], update, rank, update', rank', lvl)
    ensures Cut(nodes, post, lvl, p, update', rank')
    ensures level == lvl && level > 1 ==> Next(Heights(nodes), level - 1, 0) < |nodes|
  {
    hide *;
    StructuredParts(nodes, lv, level);
    PathLength(nodes, level, p, update, rank);
    if level == lvl {
      SameRaised(lv, post, length, level, update, rank, update', rank', nodes[0]);
    } else {
      RaisedToLinks(nodes, lv, post, length, level, lvl);
      LongerPath(nodes, level, lvl, p, update, rank, update', rank');
      RaisedOrder(nodes, level, lvl);
    }
    IsCut(nodes, post, lvl, p, update', rank');
  }

  lemma SameRaised(lv: seq<seq<Level>>, post: seq<seq<Level>>, length: nat, level: nat, update: seq<Node>,
                   rank: seq<int>,
                   update': seq<Node>, rank': seq<int>, header: Node)
    requires RaisedTo(lv, post, length, level, level) && |update| == level
    requires Longer(header, update, rank, update', rank', level)
    ensures post == lv && update' == update && rank' == rank
  {
    assert post[0] == lv[0];
  }

  lemma RaisedToLinks(nodes: seq<Node>, lv: seq<seq<Level>>, post: seq<seq<Level>>, length: nat, level: nat, lvl: nat)
    requires Ordered(nodes, level) && |lv| == |nodes| == length + 1 && Linked(nodes, lv, level)
    requires level < lvl <= MAXLEVEL
    requires RaisedTo(lv, post, length, level, lvl)
    ensures |post| == |nodes| && Linked(nodes, post, lvl)
  {
    hide Linked, Ordered;
    RaisedLinks(nodes, lv, post, level, lvl);
  }

  lemma LongerPath(nodes: seq<Node>, level: nat, lvl: nat, p: nat, update: seq<Node>, rank: seq<int>,
                   update': seq<Node>, rank': seq<int>)
    requires Ordered(nodes, level) && level < lvl <= MAXLEVEL && Path(nodes, level, p, update, rank)
    requires Longer(nodes[0], update, rank, update', rank', lvl)
    ensures Path(nodes, lvl, p, update', rank')
  {
    PathLength(nodes, level, p, update, rank);
    hide Path, Ordered;
    RaisedPath(nodes, level, lvl, p, update, rank, update', rank');
  }

  lemma IsCut(nodes: seq<Node>, lv: seq<seq<Level>>, level: nat, p: nat, update: seq<Node>, rank: seq<int>)
    requires |nodes| == |lv| && Ordered(nodes, level) && Linked(nodes, lv, level) && Path(nodes, level, p, update, rank)
    ensures Cut(nodes, lv, level, p, update, rank)
  {
    hide Ordered, Linked, Path;
  }

  lemma CutParts(nodes: seq<Node>, lv: seq<seq<Level>>, level: nat, p: nat, update: seq<Node>, rank: seq<int>)
    requires Cut(nodes, lv, level, p, update, rank)
    ensures |nodes| == |lv| && Ordered(nodes, level) && Linked(nodes, lv, level) && Path(nodes, level, p, update, rank)
  {
    hide Ordered, Linked, Path;
  }

  // ----- Splicing a node in -----

  /** What node `r` holds at level `l` once `x` of height `lvl` has been spliced in behind
      position `p` on the levels below `i`. */
  function SplicedLevel(pre: Level, x: Node, lvl: nat, p: nat, onPath: bool, r: nat, l: nat, i: nat): Level
  {
    if l < i && onPath then (if l < lvl then Level(Some(x), p - r + 1) else pre.(span := pre.span + 1)) else pre
  }

  ghost predicate Spliced(pre: seq<seq<Level>>, post: seq<seq<Level>>, x: Node, lvl: nat, p: nat, rank: seq<int>,
                          i: nat)
  {
    && |post| == |pre| && i <= |rank|
    && forall r :: 0 <= r < |pre| ==>
         && |post[r]| == |pre[r]|
         && forall l :: 0 <= l < |pre[r]| ==>
              post[r][l] == SplicedLevel(pre[r][l], x, lvl, p, l < |rank| && rank[l] == r, r, l, i)
  }

  /** The new node takes over, below `i`, what its predecessors pointed to. */
  ghost predicate TakesOver(pre: seq<seq<Level>>, xlv: seq<Level>, lvl: nat, p: nat, rank: seq<int>, i: nat)
  {
    && |xlv| == lvl && i <= |rank|
    && forall l :: 0 <= l < lvl && l < i ==>
         && 0 <= rank[l] < |pre| && l < |pre[rank[l]]|
         && xlv[l] == Level(pre[rank[l]][l].forward, pre[rank[l]][l].span - (p - rank[l]))
  }

  lemma HeightsInserted(nodes: seq<Node>, i: nat, x: Node)
    requires i <= |nodes|
    ensures Heights(With(nodes, i, x)) == With(Heights(nodes), i, x.height)
  {}

  lemma SplicedLink(nodes: seq<Node>, pre: seq<seq<Level>>, level: nat, p: nat, update: seq<Node>, rank: seq<int>,
                    x: Node, post: seq<seq<Level>>, r: nat, l: nat)
    requires Ordered(nodes, level) && |pre| == |nodes| && Linked(nodes, pre, level)
    requires Path(nodes, level, p, update, rank)
    requires x.height <= level && Spliced(pre, post, x, x.height, p, rank, level)
    requires r < |nodes| && l < nodes[r].height
    ensures var nodes' := With(nodes, p + 1, x);
            var n := Next(Heights(nodes'), l, if r <= p then r else r + 1);
            && post[r][l].forward == At(nodes', n)
            && (l < level ==> post[r][l].span == Span(Heights(nodes'), l, if r <= p then r else r + 1))
  {
    hide Next, Prev, Heights, Linked, Spliced, Path, Ordered, With;
    PathFacts(nodes, level, p, update, rank);
    var hs, nodes' := Heights(nodes), With(nodes, p + 1, x);
    OrderedFacts(nodes, level);
    HeightsInserted(nodes, p + 1, x);
    LinkedAt(nodes, pre, level, r, l);
    SplicedAt(pre, post, x, x.height, p, rank, level, r, l);
    PathFacts(nodes, level, p, update, rank);
    NextInserted(hs, p, x.height, l, r);
    if l < level {
      PathRank(nodes, level, p, update, rank, l);
      if r <= p { PrevNext(hs, l, p, r); }
    } else {
      OnlyHeader(nodes, level, l, r);
      NextIs(hs, l, 0, |nodes|);
    }
  }

  lemma LinkedAt(nodes: seq<Node>, lv: seq<seq<Level>>, level: nat, r: nat, l: nat)
    requires |nodes| == |lv| && Linked(nodes, lv, level) && r < |nodes| && l < nodes[r].height
    ensures |lv[r]| == nodes[r].height && lv[r][l].forward == At(nodes, Next(Heights(nodes), l, r))
    ensures l < level ==> lv[r][l].span == Span(Heights(nodes), l, r)
  {
    hide Next, Heights;
    assert LinkOk(nodes, lv, level, r, l);
  }

  lemma SplicedAt(pre: seq<seq<Level>>, post: seq<seq<Level>>, x: Node, lvl: nat, p: nat, rank: seq<int>, i: nat,
                  r: nat, l: nat)
    requires Spliced(pre, post, x, lvl, p, rank, i) && r < |pre| && l < |pre[r]|
    ensures |post| == |pre| && |post[r]| == |pre[r]|
    ensures post[r][l] == SplicedLevel(pre[r][l], x, lvl, p, l < |rank| && rank[l] == r, r, l, i)
  {}

  lemma PathRank(nodes: seq<Node>, level: nat, p: nat, update: seq<Node>, rank: seq<int>, l: nat)
    requires Path(nodes, level, p, update, rank) && l < level
    ensures p < |nodes| && nodes[0].height > l && |rank| == |update| == level
    ensures rank[l] == Prev(Heights(nodes), l, p) && update[l] == nodes[rank[l]]
  {
    assert OnPath(nodes, p, l, update[l], rank[l]);
  }

  lemma OnlyHeader(nodes: seq<Node>, level: nat, l: nat, r: nat)
    requires Ordered(nodes, level) && level <= l && r < |nodes| && l < nodes[r].height
    ensures r == 0 && forall i :: 0 < i < |nodes| ==> nodes[i].height <= l
  {}

  lemma NewLink(nodes: seq<Node>, pre: seq<seq<Level>>, level: nat, p: nat, update: seq<Node>, rank: seq<int>,
                x: Node, xlv: seq<Level>, l: nat)
    requires Ordered(nodes, level) && |pre| == |nodes| && Linked(nodes, pre, level)
    requires Path(nodes, level, p, update, rank)
    requires x.height <= level && TakesOver(pre, xlv, x.height, p, rank, level) && l < x.height
    ensures var nodes' := With(nodes, p + 1, x);
            && xlv[l].forward == At(nodes', Next(Heights(nodes'), l, p + 1))
            && xlv[l].span == Span(Heights(nodes'), l, p + 1)
  {
    hide Next, Prev, Heights;
    var hs := Heights(nodes);
    HeightsInserted(nodes, p + 1, x);
    assert OnPath(nodes, p, l, update[l], rank[l]);
    var u := rank[l];
    NextInserted(hs, p, x.height, l, u);
    PrevNext(hs, l, p, u);
    assert LinkOk(nodes, pre, level, u, l);
  }

  /** After the splice the links are those of the list with the node inserted. */
  lemma SplicedLinks(nodes: seq<Node>, pre: seq<seq<Level>>, level: nat, p: nat, update: seq<Node>, rank: seq<int>,
                     x: Node, xlv: seq<Level>, post: seq<seq<Level>>)
    requires Ordered(nodes, level) && |pre| == |nodes| && Linked(nodes, pre, level)
    requires Path(nodes, level, p, update, rank)
    requires x.height <= level && Spliced(pre, post, x, x.height, p, rank, level)
    requires TakesOver(pre, xlv, x.height, p, rank, level)
    ensures Linked(With(nodes, p + 1, x), With(post, p + 1, xlv), level)
  {
    hide Next, Heights, Span, Ordered, Spliced, TakesOver, Path;
    PathFacts(nodes, level, p, update, rank);
    SplicedFacts(pre, post, x, x.height, p, rank, level);
    var nodes', lv' := With(nodes, p + 1, x), With(post, p + 1, xlv);
    assert |xlv| == x.height by { TakesOverFacts(pre, xlv, x.height, p, rank, level); }
    forall r, l | 0 <= r < |nodes'| && 0 <= l < nodes'[r].height ensures LinkOk(nodes', lv', level, r, l) {
      if r == p + 1 {
        NewLink(nodes, pre, level, p, update, rank, x, xlv, l);
      } else {
        SplicedLink(nodes, pre, level, p, update, rank, x, post, if r <= p then r else r - 1, l);
      }
    }
  }

  lemma PathFacts(nodes: seq<Node>, level: nat, p: nat, update: seq<Node>, rank: seq<int>)
    requires Path(nodes, level, p, update, rank)
    ensures p < |nodes| && |update| == |rank| == level
    ensures forall l :: 0 <= l < level ==> 0 <= rank[l] <= p && update[l] == nodes[rank[l]] && update[l].height > l
  {
    forall l | 0 <= l < level ensures 0 <= rank[l] <= p && update[l] == nodes[rank[l]] && update[l].height > l {
      assert OnPath(nodes, p, l, update[l], rank[l]);
    }
  }

  lemma SplicedFacts(pre: seq<seq<Level>>, post: seq<seq<Level>>, x: Node, lvl: nat, p: nat, rank: seq<int>, i: nat)
    requires Spliced(pre, post, x, lvl, p, rank, i)
    ensures |post| == |pre| && forall r :: 0 <= r < |pre| ==> |post[r]| == |pre[r]|
  {}

  lemma TakesOverFacts(pre: seq<seq<Level>>, xlv: seq<Level>, lvl: nat, p: nat, rank: seq<int>, i: nat)
    requires TakesOver(pre, xlv, lvl, p, rank, i)
    ensures |xlv| == lvl
  {}

  lemma LinkedFacts(nodes: seq<Node>, lv: seq<seq<Level>>, level: nat)
    requires |nodes| == |lv| && Linked(nodes, lv, level)
    ensures forall r :: 0 <= r < |nodes| ==> |lv[r]| == nodes[r].height
  {}

  lemma NothingSpliced(pre: seq<seq<Level>>, xlv: seq<Level>, x: Node, lvl: nat, p: nat, rank: seq<int>)
    requires |xlv| == lvl
    ensures Spliced(pre, pre, x, lvl, p, rank, 0) && TakesOver(pre, xlv, lvl, p, rank, 0)
  {}

  lemma SplicedBeyond(pre: Level, x: Node, lvl: nat, p: nat, r: nat, l: nat)
    ensures SplicedLevel(pre, x, lvl, p, true, r, l, l) == pre
  {}

  lemma SpliceStep(pre: seq<seq<Level>>, lv: seq<seq<Level>>, x: Node, lvl: nat, p: nat, rank: seq<int>, i: nat)
    requires Spliced(pre, lv, x, lvl, p, rank, i) && i < |rank| && 0 <= rank[i] < |pre| && i < |pre[rank[i]]|
    ensures |lv| == |pre| && |lv[rank[i]]| == |pre[rank[i]]|
    ensures var v := if i < lvl then Level(Some(x), p - rank[i] + 1)
            else pre[rank[i]][i].(span := pre[rank[i]][i].span + 1);
            Spliced(pre, lv[rank[i] := lv[rank[i]][i := v]], x, lvl, p, rank, i + 1)
  {}

  lemma TakeOverStep(pre: seq<seq<Level>>, xlv: seq<Level>, lvl: nat, p: nat, rank: seq<int>, i: nat)
    requires TakesOver(pre, xlv, lvl, p, rank, i) && i < |rank| && i < lvl
    requires 0 <= rank[i] < |pre| && i < |pre[rank[i]]|
    ensures |xlv| == lvl
    ensures TakesOver(pre, xlv[i := Level(pre[rank[i]][i].forward, pre[rank[i]][i].span - (p - rank[i]))], lvl, p, rank,
                      i + 1)
  {}

  lemma TookOver(pre: seq<seq<Level>>, xlv: seq<Level>, lvl: nat, p: nat, rank: seq<int>, i: nat)
    requires TakesOver(pre, xlv, lvl, p, rank, lvl) && lvl <= i <= |rank|
    ensures TakesOver(pre, xlv, lvl, p, rank, i)
  {}

  /** How many nodes lie before a key. */
  lemma KeyPivot(nodes: seq<Node>, level: nat, score: Score, ele: Ele) returns (p: nat)
    requires Ordered(nodes, level)
    ensures Pivot(nodes, KeyTest(score, ele), p)
  {
    hide Less;
    forall i, j | 1 <= i < j < |nodes| && Before(nodes[j], score, ele) ensures Before(nodes[i], score, ele) {
      LessTransitive(nodes[i].score, nodes[i].ele.value, nodes[j].score, nodes[j].ele.value, score, ele);
    }
    p := PivotExists(nodes, KeyTest(score, ele));
  }

  lemma BottomRank(nodes: seq<Node>, level: nat, p: nat, update: seq<Node>, rank: seq<int>)
    requires Ordered(nodes, level) && Path(nodes, level, p, update, rank)
    ensures p < |nodes| && |update| == |rank| == level && rank[0] == p && update[0] == nodes[p]
  {
    hide Prev;
    PathRank(nodes, level, p, update, rank, 0);
    PrevIs(Heights(nodes), 0, p, p);
  }

  lemma BottomNext(nodes: seq<Node>, level: nat, r: nat)
    requires Ordered(nodes, level) && r < |nodes|
    ensures Next(Heights(nodes), 0, r) == r + 1
  {
    hide Next;
    NextIs(Heights(nodes), 0, r, r + 1);
  }

  /** The list stays ordered, and its top level in use. */
  lemma InsertedOrder(nodes: seq<Node>, level: nat, score: Score, ele: Ele, p: nat, x: Node)
    requires Ordered(nodes, level) && Pivot(nodes, KeyTest(score, ele), p)
    requires Elsewhere(nodes, x) && x.score == score && x.ele == Some(ele) && 1 <= x.height <= level
    requires forall i :: 1 <= i < |nodes| ==> !(nodes[i].score == score && nodes[i].ele == Some(ele))
    ensures Ordered(With(nodes, p + 1, x), level)
  {
    hide Less, Compare;
    var nodes' := With(nodes, p + 1, x);
    hide With;
    forall i | 1 <= i < |nodes| ensures if i <= p then KeyLess(nodes[i], x) else KeyLess(x, nodes[i]) {
      assert Before(nodes[i], score, ele) <==> i <= p;
      LessTotal(nodes[i].score, nodes[i].ele.value, score, ele);
    }
  }

  lemma InsertedTop(nodes: seq<Node>, level: nat, p: nat, x: Node)
    requires Ordered(nodes, level) && p < |nodes| && 1 <= x.height <= level
    requires x.height < level ==> Next(Heights(nodes), level - 1, 0) < |nodes|
    ensures Next(Heights(With(nodes, p + 1, x)), level - 1, 0) < |nodes| + 1
  {
    HeightsInserted(nodes, p + 1, x);
    hide Next, With, Heights;
    NextInserted(Heights(nodes), p, x.height, level - 1, 0);
  }

  lemma IsStructured(nodes: seq<Node>, lv: seq<seq<Level>>, level: nat)
    requires |nodes| == |lv| && Ordered(nodes, level) && Linked(nodes, lv, level)
    requires Next(Heights(nodes), level - 1, 0) < |nodes|
    ensures Structured(nodes, lv, level)
  {
    hide Ordered, Linked, Next;
  }

  lemma StructuredParts(nodes: seq<Node>, lv: seq<seq<Level>>, level: nat)
    requires |nodes| == |lv| && Structured(nodes, lv, level)
    ensures Ordered(nodes, level) && Linked(nodes, lv, level)
    ensures level > 1 ==> Next(Heights(nodes), level - 1, 0) < |nodes|
  {}

  lemma StructuredFacts(nodes: seq<Node>, lv: seq<seq<Level>>, level: nat)
    requires |nodes| == |lv| && Structured(nodes, lv, level)
    ensures |nodes| > 0 && nodes[0].height == MAXLEVEL && 1 <= level <= MAXLEVEL && nodes[0].ele.None?
    ensures forall i, j :: 0 <= i < j < |nodes| ==> nodes[i] != nodes[j]
    ensures forall r :: 0 <= r < |nodes| ==> |lv[r]| == nodes[r].height
    ensures forall i :: 1 <= i < |nodes| ==> 1 <= nodes[i].height <= level && nodes[i].ele.Some?
  {}

  lemma BottomLink(nodes: seq<Node>, lv: seq<seq<Level>>, level: nat, r: nat)
    requires |nodes| == |lv| && Structured(nodes, lv, level) && r < |nodes|
    ensures |lv[r]| > 0 && lv[r][0].forward == At(nodes, r + 1)
  {
    hide Next, Heights;
    LinkedAt(nodes, lv, level, r, 0);
    BottomNext(nodes, level, r);
  }

  // ----- Searching -----

  /** No node has this score and element. */
  ghost predicate Absent(nodes: seq<Node>, score: Score, ele: Ele)
  {
    forall i :: 1 <= i < |nodes| ==> !(nodes[i].score == score && nodes[i].ele == Some(ele))
  }

  lemma AbsentFacts(nodes: seq<Node>, score: Score, ele: Ele)
    requires Absent(nodes, score, ele)
    ensures forall i :: 1 <= i < |nodes| ==> !(nodes[i].score == score && nodes[i].ele == Some(ele))
  {}

  lemma HeaderOf(nodes: seq<Node>, level: nat)
    requires Ordered(nodes, level)
    ensures |nodes| > 0 && nodes[0].height == MAXLEVEL && nodes[0].ele.None? && 1 <= level <= MAXLEVEL
  {}

  lemma ScoresSorted(nodes: seq<Node>, level: nat, i: nat, j: nat)
    requires Ordered(nodes, level) && 1 <= i <= j < |nodes|
    ensures ScoreLeq(nodes[i].score, nodes[j].score)
  {
    hide Compare;
    assert i < j ==> KeyLess(nodes[i], nodes[j]);
  }

  ghost predicate NoneInRange(nodes: seq<Node>, range: Range)
  {
    forall i :: 1 <= i < |nodes| ==> !InRange(range, nodes[i].score)
  }

  /** `q` is the first position in the range. */
  ghost predicate FirstOf(nodes: seq<Node>, range: Range, q: nat)
  {
    1 <= q < |nodes| && InRange(range, nodes[q].score) && forall i :: 1 <= i < q ==> !InRange(range, nodes[i].score)
  }

  /** `q` is the last position in the range. */
  ghost predicate LastOf(nodes: seq<Node>, range: Range, q: nat)
  {
    1 <= q < |nodes| && InRange(range, nodes[q].score)
      && forall i :: q < i < |nodes| ==> !InRange(range, nodes[i].score)
  }

  /** The test of a search for the start of a range. */
  function BelowMin(range: Range): Node -> bool { (n: Node) => !GteMin(range, n.score) }

  /** The test of a search for the end of a range. */
  function UpToMax(range: Range): Node -> bool { (n: Node) => LteMax(range, n.score) }

  /** The test of a search for a rank. */
  function UpToTest(score: Score, ele: Ele): Node -> bool
  {
    (n: Node) => n.ele.Some? && (ScoreLess(n.score, score) || (n.score == score && Compare(n.ele.value, ele) <= 0))
  }

  lemma MinPivot(nodes: seq<Node>, level: nat, range: Range) returns (p: nat)
    requires Ordered(nodes, level)
    ensures Pivot(nodes, BelowMin(range), p)
  {
    HeaderOf(nodes, level);
    hide Ordered, GteMin;
    forall i, j | 1 <= i < j < |nodes| && !GteMin(range, nodes[j].score) ensures !GteMin(range, nodes[i].score) {
      ScoresSorted(nodes, level, i, j);
      RangeMonotone(range, nodes[i].score, nodes[j].score);
    }
    p := PivotExists(nodes, BelowMin(range));
  }

  lemma MaxPivot(nodes: seq<Node>, level: nat, range: Range) returns (p: nat)
    requires Ordered(nodes, level)
    ensures Pivot(nodes, UpToMax(range), p)
  {
    HeaderOf(nodes, level);
    hide Ordered, LteMax;
    forall i, j | 1 <= i < j < |nodes| && LteMax(range, nodes[j].score) ensures LteMax(range, nodes[i].score) {
      ScoresSorted(nodes, level, i, j);
      RangeMonotone(range, nodes[i].score, nodes[j].score);
    }
    p := PivotExists(nodes, UpToMax(range));
  }

  /** A key before one that is at most the given key is itself before it. */
  lemma UpToPivot(nodes: seq<Node>, level: nat, score: Score, ele: Ele) returns (p: nat)
    requires Ordered(nodes, level)
    ensures Pivot(nodes, UpToTest(score, ele), p)
  {
    HeaderOf(nodes, level);
    forall i, j | 1 <= i < j < |nodes| && UpToTest(score, ele)(nodes[j]) ensures UpToTest(score, ele)(nodes[i]) {
      assert KeyLess(nodes[i], nodes[j]);
      hide Ordered, Compare;
      if nodes[j].score == score && nodes[i].score == score {
        CompareZero(nodes[j].ele.value, ele);
        if Compare(nodes[j].ele.value, ele) < 0 { CompareTransitive(nodes[i].ele.value, nodes[j].ele.value, ele); }
      }
    }
    p := PivotExists(nodes, UpToTest(score, ele));
  }

  /** A node with the key is the last to pass the test. */
  lemma KeyAtPivot(nodes: seq<Node>, level: nat, p: nat, score: Score, ele: Ele, i: nat)
    requires Ordered(nodes, level) && Pivot(nodes, UpToTest(score, ele), p)
    requires 1 <= i < |nodes| && nodes[i].score == score && nodes[i].ele == Some(ele)
    ensures i == p
  {
    CompareZero(ele, ele);
    hide Compare;
    assert UpToTest(score, ele)(nodes[i]);
    assert UpToTest(score, ele)(nodes[p]);
    assert i < p ==> KeyLess(nodes[i], nodes[p]);
    CompareFlips(ele, nodes[p].ele.value);
  }

  lemma NotAtPivot(nodes: seq<Node>, level: nat, p: nat, score: Score, ele: Ele)
    requires Ordered(nodes, level) && Pivot(nodes, UpToTest(score, ele), p)
    ensures p < |nodes| && (nodes[p].ele != Some(ele) ==> Absent(nodes, score, ele))
  {
    forall i | 1 <= i < |nodes| && nodes[i].score == score && nodes[i].ele == Some(ele) ensures i == p {
      hide *;
      KeyAtPivot(nodes, level, p, score, ele, i);
    }
  }

  /** The last node on level `l` up to position `p` has this element. */
  ghost predicate SeenAt(nodes: seq<Node>, p: nat, l: nat, ele: Ele)
  {
    p < |nodes| && nodes[0].height > l && nodes[Prev(Heights(nodes), l, p)].ele == Some(ele)
  }

  /** That is so on some level in use. */
  ghost predicate Seen(nodes: seq<Node>, level: nat, p: nat, ele: Ele)
  {
    exists l :: 0 <= l < level && SeenAt(nodes, p, l, ele)
  }

  lemma SeenIs(nodes: seq<Node>, p: nat, l: nat, x: Node, r: int, ele: Ele)
    requires p < |nodes| && nodes[0].height > l && OnPath(nodes, p, l, x, r)
    ensures SeenAt(nodes, p, l, ele) <==> x.ele == Some(ele)
  {}

  lemma SeenFrom(nodes: seq<Node>, level: nat, p: nat, l: nat, ele: Ele)
    requires l < level && SeenAt(nodes, p, l, ele)
    ensures Seen(nodes, level, p, ele)
  {
    hide SeenAt;
  }

  lemma NotSeen(nodes: seq<Node>, level: nat, p: nat, ele: Ele)
    requires forall l :: 0 <= l < level ==> !SeenAt(nodes, p, l, ele)
    ensures !Seen(nodes, level, p, ele)
  {
    hide SeenAt;
  }

  /** The node behind the place is the only one that can have the key. */
  lemma OnlyBehind(nodes: seq<Node>, level: nat, p: nat, score: Score, ele: Ele)
    requires Ordered(nodes, level) && Pivot(nodes, KeyTest(score, ele), p)
    ensures Absent(nodes, score, ele) <==>
            !(p + 1 < |nodes| && nodes[p + 1].score == score && nodes[p + 1].ele == Some(ele))
  {
    forall i | 1 <= i < |nodes| && nodes[i].score == score && nodes[i].ele == Some(ele) ensures i == p + 1 {
      LessTotal(score, ele, score, ele);
      hide Less;
      assert !Before(nodes[i], score, ele);
      assert !Before(nodes[p + 1], score, ele);
      assert forall j :: 1 <= j < i ==> KeyLess(nodes[j], nodes[i]);
    }
  }

  lemma FirstBehind(nodes: seq<Node>, level: nat, p: nat, range: Range)
    requires Ordered(nodes, level) && Pivot(nodes, BelowMin(range), p) && |nodes| > 1
    requires GteMin(range, nodes[|nodes| - 1].score)
    ensures p + 1 < |nodes|
    ensures LteMax(range, nodes[p + 1].score) ==> FirstOf(nodes, range, p + 1)
    ensures !LteMax(range, nodes[p + 1].score) ==> NoneInRange(nodes, range)
  {
    hide Ordered, GteMin, LteMax;
    forall i | p + 1 < i < |nodes| && LteMax(range, nodes[i].score) ensures LteMax(range, nodes[p + 1].score) {
      ScoresSorted(nodes, level, p + 1, i);
      RangeMonotone(range, nodes[p + 1].score, nodes[i].score);
    }
  }

  lemma LastBefore(nodes: seq<Node>, level: nat, p: nat, range: Range)
    requires Ordered(nodes, level) && Pivot(nodes, UpToMax(range), p) && |nodes| > 1 && LteMax(range, nodes[1].score)
    ensures 1 <= p < |nodes|
    ensures GteMin(range, nodes[p].score) ==> LastOf(nodes, range, p)
    ensures !GteMin(range, nodes[p].score) ==> NoneInRange(nodes, range)
  {
    hide Ordered, GteMin, LteMax;
    forall i | 1 <= i < p && GteMin(range, nodes[i].score) ensures GteMin(range, nodes[p].score) {
      ScoresSorted(nodes, level, i, p);
      RangeMonotone(range, nodes[i].score, nodes[p].score);
    }
  }

  /** `p` is the last position below `limit`, or the header's. */
  ghost predicate RankPivot(nodes: seq<Node>, limit: nat, p: nat)
  {
    p < |nodes| && p == if limit == 0 then 0 else if limit <= |nodes| then limit - 1 else |nodes| - 1
  }

  lemma RankPivotFacts(nodes: seq<Node>, limit: nat, p: nat)
    requires RankPivot(nodes, limit, p)
    ensures p < |nodes| && (p < limit || p == 0) && (p + 1 < |nodes| ==> p + 1 >= limit)
  {}

  lemma RankPivotOf(nodes: seq<Node>, limit: nat) returns (p: nat)
    requires |nodes| > 0
    ensures RankPivot(nodes, limit, p)
    ensures limit > 0 ==> (p == limit - 1 <==> limit <= |nodes|)
  {
    p := if limit == 0 then 0 else if limit <= |nodes| then limit - 1 else |nodes| - 1;
  }

  lemma BottomOnPath(nodes: seq<Node>, level: nat, p: nat, x: Node, r: int)
    requires Ordered(nodes, level) && p < |nodes| && OnPath(nodes, p, 0, x, r)
    ensures r == p
  {
    hide Prev;
    PrevIs(Heights(nodes), 0, p, p);
  }

  // ----- Taking a node out -----

  /** What node `r` holds at level `l` once node `q` of height `lvl` has been taken out of the
      levels below `i`: its predecessor on a level takes over what it pointed to. */
  function UnsplicedLevel(pre: Level, out: Level, lvl: nat, onPath: bool, l: nat, i: nat): Level
  {
    if l < i && onPath
        then (if l < lvl then Level(out.forward, pre.span + (out.span - 1)) else pre.(span := pre.span - 1)) else pre
  }

  ghost predicate Unspliced(pre: seq<seq<Level>>, post: seq<seq<Level>>, q: nat, lvl: nat, rank: seq<int>, i: nat)
  {
    && |post| == |pre| && i <= |rank| && q < |pre| && |pre[q]| == lvl
    && (forall l :: 0 <= l < |rank| ==> rank[l] != q)
    && forall r :: 0 <= r < |pre| ==>
         && |post[r]| == |pre[r]|
         && forall l :: 0 <= l < |pre[r]| ==>
              post[r][l]
                == UnsplicedLevel(pre[r][l],
                                  if l < lvl then pre[q][l] else pre[r][l], lvl, l < |rank| && rank[l] == r, l, i)
  }

  lemma NothingUnspliced(pre: seq<seq<Level>>, q: nat, lvl: nat, rank: seq<int>)
    requires q < |pre| && |pre[q]| == lvl && forall l :: 0 <= l < |rank| ==> rank[l] != q
    ensures Unspliced(pre, pre, q, lvl, rank, 0)
  {}

  lemma UnsplicedFacts(pre: seq<seq<Level>>, post: seq<seq<Level>>, q: nat, lvl: nat, rank: seq<int>, i: nat)
    requires Unspliced(pre, post, q, lvl, rank, i)
    ensures |post| == |pre| && forall l :: 0 <= l < |rank| ==> rank[l] != q
  {}

  lemma UnsplicedAt(pre: seq<seq<Level>>, post: seq<seq<Level>>, q: nat, lvl: nat, rank: seq<int>, i: nat, r: nat,
                    l: nat)
    requires Unspliced(pre, post, q, lvl, rank, i) && r < |pre|
    ensures |post| == |pre| && |post[r]| == |pre[r]| && q < |pre| && |pre[q]| == lvl
    ensures l < |pre[r]| ==>
      post[r][l]
        == UnsplicedLevel(pre[r][l], if l < lvl then pre[q][l] else pre[r][l], lvl, l < |rank| && rank[l] == r, l, i)
  {}

  lemma UnspliceStep(pre: seq<seq<Level>>, lv: seq<seq<Level>>, q: nat, lvl: nat, rank: seq<int>, i: nat)
    requires Unspliced(pre, lv, q, lvl, rank, i) && i < |rank| && 0 <= rank[i] < |pre| && i < |pre[rank[i]]|
    ensures |lv| == |pre| && |lv[rank[i]]| == |pre[rank[i]]| && q < |pre| && |pre[q]| == lvl
    ensures i < lvl ==> var v := Level(pre[q][i].forward, pre[rank[i]][i].span + (pre[q][i].span - 1));
                        Unspliced(pre, lv[rank[i] := lv[rank[i]][i := v]], q, lvl, rank, i + 1)
    ensures i >= lvl ==> var v := pre[rank[i]][i].(span := pre[rank[i]][i].span - 1);
                         Unspliced(pre, lv[rank[i] := lv[rank[i]][i := v]], q, lvl, rank, i + 1)
  {}

  lemma UnsplicedBeyond(pre: Level, out: Level, lvl: nat, onPath: bool, l: nat)
    ensures UnsplicedLevel(pre, out, lvl, onPath, l, l) == pre
  {}

  /** The last node before position p + 1 on a level points at the node there exactly on the
      levels that node is on. */
  lemma PredecessorPoints(nodes: seq<Node>, lv: seq<seq<Level>>, level: nat, p: nat, update: seq<Node>, rank: seq<int>,
                          l: nat)
    requires Ordered(nodes, level) && |nodes| == |lv| && Linked(nodes, lv, level) && Path(nodes, level, p, update, rank)
    requires l < level && p + 1 < |nodes|
    ensures 0 <= rank[l] <= p && l < |lv[rank[l]]|
    ensures lv[rank[l]][l].forward == Some(nodes[p + 1]) <==> l < nodes[p + 1].height
  {
    hide Next, Prev, Heights;
    PathRank(nodes, level, p, update, rank, l);
    var hs := Heights(nodes);
    PrevNext(hs, l, p, rank[l]);
    LinkedAt(nodes, lv, level, rank[l], l);
    var n := Next(hs, l, rank[l]);
    assert n > p;
    assert n == p + 1 ==> hs[n] > l;
    assert n > p + 1 ==> hs[p + 1] <= l;
  }

  lemma HeightsRemoved(nodes: seq<Node>, q: nat)
    requires q < |nodes|
    ensures Heights(Without(nodes, q)) == Without(Heights(nodes), q)
  {}

  lemma UnsplicedLink(nodes: seq<Node>, pre: seq<seq<Level>>, level: nat, p: nat, update: seq<Node>, rank: seq<int>,
                      post: seq<seq<Level>>, r: nat, l: nat)
    requires Ordered(nodes, level) && |pre| == |nodes| && Linked(nodes, pre, level)
    requires Path(nodes, level, p, update, rank)
    requires p + 1 < |nodes| && Unspliced(pre, post, p + 1, nodes[p + 1].height, rank, level)
    requires r < |nodes| && r != p + 1 && l < nodes[r].height
    ensures var nodes' := Without(nodes, p + 1);
            var r' := if r <= p then r else r - 1;
            && |post| == |pre| && |post[r]| == |pre[r]| == nodes[r].height
            && post[r][l].forward == At(nodes', Next(Heights(nodes'), l, r'))
            && (l < level ==> post[r][l].span == Span(Heights(nodes'), l, r'))
  {
    hide Next, Prev, Heights, Linked, Unspliced, Path, Ordered, Without;
    PathFacts(nodes, level, p, update, rank);
    var hs, q, nodes' := Heights(nodes), p + 1, Without(nodes, p + 1);
    OrderedFacts(nodes, level);
    HeightsRemoved(nodes, q);
    LinkedAt(nodes, pre, level, r, l);
    UnsplicedAt(pre, post, q, nodes[q].height, rank, level, r, l);
    NextRemoved(hs, q, l, r);
    if l < level {
      PathRank(nodes, level, p, update, rank, l);
      if r <= p { PrevNext(hs, l, p, r); }
      if l < nodes[q].height { LinkedAt(nodes, pre, level, q, l); }
    } else {
      OnlyHeader(nodes, level, l, r);
      NextIs(hs, l, 0, |nodes|);
    }
  }

  /** After the node is out the links are those of the list without it. */
  lemma UnsplicedLinks(nodes: seq<Node>, pre: seq<seq<Level>>, level: nat, p: nat, update: seq<Node>, rank: seq<int>,
                       post: seq<seq<Level>>)
    requires Ordered(nodes, level) && |pre| == |nodes| && Linked(nodes, pre, level)
    requires Path(nodes, level, p, update, rank)
    requires p + 1 < |nodes| && Unspliced(pre, post, p + 1, nodes[p + 1].height, rank, level)
    ensures |post| == |nodes| && Linked(Without(nodes, p + 1), Without(post, p + 1), level)
  {
    hide Next, Heights, Span, Ordered, Unspliced, Path;
    LinkedFacts(nodes, pre, level);
    UnsplicedAt(pre, post, p + 1, nodes[p + 1].height, rank, level, 0, 0);
    var nodes', lv' := Without(nodes, p + 1), Without(post, p + 1);
    forall r | 0 <= r < |nodes'| ensures |lv'[r]| == nodes'[r].height {
      UnsplicedAt(pre, post, p + 1, nodes[p + 1].height, rank, level, if r <= p then r else r + 1, 0);
    }
    forall r, l | 0 <= r < |nodes'| && 0 <= l < nodes'[r].height ensures LinkOk(nodes', lv', level, r, l) {
      UnsplicedLink(nodes, pre, level, p, update, rank, post, if r <= p then r else r + 1, l);
    }
  }

  lemma RemovedOrder(nodes: seq<Node>, level: nat, q: nat)
    requires Ordered(nodes, level) && 0 < q < |nodes|
    ensures Ordered(Without(nodes, q), level)
  {
    hide Without, KeyLess;
  }

  lemma RemovedPath(nodes: seq<Node>, level: nat, p: nat, update: seq<Node>, rank: seq<int>)
    requires Ordered(nodes, level) && Path(nodes, level, p, update, rank) && p + 1 < |nodes|
    ensures Path(Without(nodes, p + 1), level, p, update, rank)
  {
    hide Prev, Without;
    var nodes' := Without(nodes, p + 1);
    forall l | 0 <= l < level ensures nodes'[0].height > l && OnPath(nodes', p, l, update[l], rank[l]) {
      assert OnPath(nodes, p, l, update[l], rank[l]);
      PrevIs(Heights(nodes'), l, p, rank[l]);
    }
  }

  /** Taking the node out leaves its own links alone. */
  lemma BottomOf(nodes: seq<Node>, pre: seq<seq<Level>>, post: seq<seq<Level>>, level: nat, p: nat, update: seq<Node>,
                 rank: seq<int>)
    requires Ordered(nodes, level) && |pre| == |nodes| && Linked(nodes, pre, level) && p + 1 < |nodes|
    requires Path(nodes, level, p, update, rank) && Unspliced(pre, post, p + 1, nodes[p + 1].height, rank, level)
    ensures |post| == |nodes| && |post[p + 1]| > 0 && post[p + 1][0].forward == At(nodes, p + 2)
  {
    hide Next, Heights, Linked, Unspliced, Path;
    LinkedAt(nodes, pre, level, p + 1, 0);
    UnsplicedAt(pre, post, p + 1, nodes[p + 1].height, rank, level, p + 1, 0);
    PathFacts(nodes, level, p, update, rank);
    BottomNext(nodes, level, p + 1);
  }

  lemma CutOut(nodes: seq<Node>, pre: seq<seq<Level>>, post: seq<seq<Level>>, level: nat, p: nat, update: seq<Node>,
               rank: seq<int>)
    requires Ordered(nodes, level) && |pre| == |nodes| && Linked(nodes, pre, level) && p + 1 < |nodes|
    requires Path(nodes, level, p, update, rank) && Unspliced(pre, post, p + 1, nodes[p + 1].height, rank, level)
    ensures |post| == |nodes| && Cut(Without(nodes, p + 1), Without(post, p + 1), level, p, update, rank)
    ensures |post[p + 1]| > 0 && post[p + 1][0].forward == At(nodes, p + 2)
  {
    hide Ordered, Linked, Path, Unspliced, Without;
    UnsplicedLinks(nodes, pre, level, p, update, rank, post);
    RemovedOrder(nodes, level, p + 1);
    RemovedPath(nodes, level, p, update, rank);
    BottomOf(nodes, pre, post, level, p, update, rank);
  }

  lemma CutFacts(nodes: seq<Node>, lv: seq<seq<Level>>, level: nat, p: nat, update: seq<Node>, rank: seq<int>)
    requires Cut(nodes, lv, level, p, update, rank)
    ensures |nodes| == |lv| > 0 && |lv[0]| == MAXLEVEL && 1 <= level <= MAXLEVEL && |update| == |rank| == level
  {}

  /** An empty top level can be dropped. */
  lemma LowerOne(nodes: seq<Node>, lv: seq<seq<Level>>, level: nat, p: nat, update: seq<Node>, rank: seq<int>)
    requires Cut(nodes, lv, level, p, update, rank) && level > 1 && |lv| > 0 && |lv[0]| >= level
    requires lv[0][level - 1].forward == None
    ensures |update| == |rank| == level && Cut(nodes, lv, level - 1, p, update[..level - 1], rank[..level - 1])
  {
    hide Next, KeyLess;
    assert LinkOk(nodes, lv, level, 0, level - 1);
    assert forall r: int, l: int :: 0 <= r < |nodes| && 0 <= l < nodes[r].height && LinkOk(nodes, lv, level, r, l) ==>
        LinkOk(nodes, lv, level - 1, r, l);
    forall i | 1 <= i < |nodes| ensures nodes[i].height <= level - 1 {
      assert Heights(nodes)[i] <= level - 1;
    }
    LowerPath(nodes, level, p, update, rank);
    hide Ordered, Path;
    LowerLinks(nodes, lv, level);
  }

  lemma LowerLinks(nodes: seq<Node>, lv: seq<seq<Level>>, level: nat)
    requires |lv| == |nodes| && Linked(nodes, lv, level) && level > 0
    ensures Linked(nodes, lv, level - 1)
  {
    hide Next, Heights, Span;
    var low := level - 1;
    forall r: nat, l: nat | r < |nodes| && l < nodes[r].height ensures LinkOk(nodes, lv, low, r, l) {
      assert LinkOk(nodes, lv, level, r, l);
    }
  }

  lemma LowerPath(nodes: seq<Node>, level: nat, p: nat, update: seq<Node>, rank: seq<int>)
    requires Path(nodes, level, p, update, rank) && level > 0
    ensures |update| == |rank| == level && Path(nodes, level - 1, p, update[..level - 1], rank[..level - 1])
  {
    hide Prev;
    var update', rank' := update[..level - 1], rank[..level - 1];
    forall l | 0 <= l < level - 1 ensures OnPath(nodes, p, l, update'[l], rank'[l]) {
      assert OnPath(nodes, p, l, update[l], rank[l]);
    }
  }

  lemma CutDone(nodes: seq<Node>, lv: seq<seq<Level>>, level: nat, p: nat, update: seq<Node>, rank: seq<int>)
    requires Cut(nodes, lv, level, p, update, rank) && |lv| > 0 && |lv[0]| >= level
    requires level > 1 ==> lv[0][level - 1].forward != None
    ensures Structured(nodes, lv, level) && Path(nodes, level, p, update, rank)
  {
    hide Next, Heights;
    if level > 1 { LinkedAt(nodes, lv, level, 0, level - 1); }
  }
}
