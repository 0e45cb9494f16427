/** The chain of nodes of a quicklist: nodes kept by address with their neighbours and, for
    each, the texts its ziplist holds in order. */
module QuickChain {
  import opened Bytes
  import opened Options
  import opened Seqs

  /** The bytes of a ziplist without entries. */
  const EMPTY_BLOCK: nat := 11

  /** A node: the entries of its ziplist, the number of bytes they take, and the fields in which
      the node has noted the number of entries and that of bytes. Its neighbours are in maps of
      their own. */
  datatype QNode = QNode(zl: seq<Octets>, bytes: nat, count: nat, sz: nat)

  type Links = map<nat, Option<nat>>

  function Before(order: seq<nat>, i: nat): Option<nat> { if 0 < i <= |order| then Some(order[i - 1]) else None }

  function After(order: seq<nat>, i: nat): Option<nat> { if i + 1 < |order| then Some(order[i + 1]) else None }

  function First(order: seq<nat>): Option<nat> { if order == [] then None else Some(order[0]) }

  function Last(order: seq<nat>): Option<nat> { if order == [] then None else Some(order[|order| - 1]) }

  ghost predicate AllDifferent(order: seq<nat>) { forall i, j :: 0 <= i < j < |order| ==> order[i] != order[j] }

  /** The nodes at these addresses, each linked to its neighbours, with the list's ends. */
  ghost predicate Linked(prev: Links, next: Links, order: seq<nat>, head: Option<nat>, tail: Option<nat>, len: nat,
                         used: nat)
  {
    && AllDifferent(order) && head == First(order) && tail == Last(order) && len == |order|
    && Points(prev, next, order) && forall i :: 0 <= i < |order| ==> order[i] < used
  }

  /** No nodes in any order are linked like that. */
  ghost predicate NoChain(prev: Links, next: Links, head: Option<nat>, tail: Option<nat>, len: nat, used: nat)
  {
    forall order :: !Linked(prev, next, order, head, tail, len, used)
  }

  ghost predicate Points(prev: Links, next: Links, order: seq<nat>)
  {
    && (forall i :: 0 <= i < |order| ==> order[i] in prev && prev[order[i]] == Before(order, i))
    && (forall i :: 0 <= i < |order| ==> order[i] in next && next[order[i]] == After(order, i))
  }

  /** What the nodes hold. */
  ghost function Zls(node: map<nat, QNode>, order: seq<nat>): (zs: seq<seq<Octets>>)
    ensures |zs| == |order|
            && forall i :: 0 <= i < |order| ==> zs[i] == if order[i] in node then node[order[i]].zl else []
  {
    seq(|order|, i requires 0 <= i < |order| => if order[i] in node then node[order[i]].zl else [])
  }

  /** What texts can come to in a block: each takes at most a link of 5 bytes and a header of 9. */
  function Weight(ts: seq<Octets>): nat { if ts == [] then 0 else |ts[0]| + 14 + Weight(ts[1..]) }

  /** The count is right, and the size noted is that of the block or still the 0 of a new node. */
  predicate Recorded(x: QNode)
  {
    && x.count == |x.zl| && EMPTY_BLOCK <= x.bytes <= EMPTY_BLOCK + Weight(x.zl)
    && (x.sz == x.bytes || x.sz == 0)
  }

  ghost predicate Counted(node: map<nat, QNode>, order: seq<nat>)
  {
    forall i :: 0 <= i < |order| ==> order[i] in node && Recorded(node[order[i]])
  }

  /** The listed nodes that have not noted the size of their block. */
  ghost function UnsizedIn(node: map<nat, QNode>, order: seq<nat>): set<nat>
  {
    set n | n in order && n in node && node[n].sz != node[n].bytes
  }

  /** The whole list. */
  function Flatten(zs: seq<seq<Octets>>): seq<Octets> { if zs == [] then [] else zs[0] + Flatten(zs[1..]) }

  /** No node is empty, and none has more entries than a positive fill allows. */
  ghost predicate Sound(zs: seq<seq<Octets>>, fill: int)
  {
    forall i :: 0 <= i < |zs| ==> SoundNode(zs[i], fill)
  }

  predicate SoundNode(zl: seq<Octets>, fill: int) { zl != [] && (fill > 0 ==> |zl| <= fill) }

  // ----- Flattening -----

  lemma {:induction false} FlattenJoin(a: seq<seq<Octets>>, b: seq<seq<Octets>>)
    ensures Flatten(a + b) == Flatten(a) + Flatten(b)
  {
    if a == [] {
      assert a + b == b;
    } else {
      assert (a + b)[1..] == a[1..] + b;
      FlattenJoin(a[1..], b);
    }
  }

  lemma FlattenOne(z: seq<Octets>)
    ensures Flatten([z]) == z
  {
    assert Flatten([z]) == z + Flatten([]);
  }

  lemma Cut<T>(s: seq<T>, i: nat)
    requires i < |s|
    ensures s == s[..i] + [s[i]] + s[i + 1..] && s[..i + 1] == s[..i] + [s[i]] && s[i..] == [s[i]] + s[i + 1..]
  {}

  /** The list around node `i`. */
  lemma FlattenAt(zs: seq<seq<Octets>>, i: nat)
    requires i < |zs|
    ensures Flatten(zs) == Flatten(zs[..i]) + zs[i] + Flatten(zs[i + 1..])
    ensures Flatten(zs[..i + 1]) == Flatten(zs[..i]) + zs[i]
    ensures Flatten(zs[i..]) == zs[i] + Flatten(zs[i + 1..])
  {
    hide *;
    Cut(zs, i);
    FlattenOne(zs[i]);
    FlattenJoin(zs[..i] + [zs[i]], zs[i + 1..]);
    FlattenJoin(zs[..i], [zs[i]]);
    FlattenJoin([zs[i]], zs[i + 1..]);
  }

  /** Rewriting one node. */
  lemma FlattenSet(zs: seq<seq<Octets>>, i: nat, z: seq<Octets>)
    requires i < |zs|
    ensures Flatten(zs[i := z]) == Flatten(zs[..i]) + z + Flatten(zs[i + 1..])
  {
    hide Flatten;
    assert zs[i := z][..i] == zs[..i] && zs[i := z][i + 1..] == zs[i + 1..];
    FlattenAt(zs[i := z], i);
  }

  lemma FlattenWith(zs: seq<seq<Octets>>, i: nat, z: seq<Octets>)
    requires i <= |zs|
    ensures Flatten(With(zs, i, z)) == Flatten(zs[..i]) + z + Flatten(zs[i..])
  {
    hide Flatten;
    FlattenOne(z);
    assert With(zs, i, z) == zs[..i] + [z] + zs[i..];
    FlattenJoin(zs[..i] + [z], zs[i..]);
    FlattenJoin(zs[..i], [z]);
  }

  lemma FlattenWithout(zs: seq<seq<Octets>>, i: nat)
    requires i < |zs|
    ensures Flatten(Without(zs, i)) == Flatten(zs[..i]) + Flatten(zs[i + 1..])
  {
    hide Flatten;
    assert Without(zs, i) == zs[..i] + zs[i + 1..];
    FlattenJoin(zs[..i], zs[i + 1..]);
  }

  lemma {:induction false} FlattenLength(zs: seq<seq<Octets>>)
    requires forall i :: 0 <= i < |zs| ==> zs[i] != []
    ensures |zs| <= |Flatten(zs)|
  {
    if zs != [] { FlattenLength(zs[1..]); }
  }

  // ----- Memory -----

  lemma LinkedAt(prev: Links, next: Links, order: seq<nat>, head: Option<nat>, tail: Option<nat>, len: nat, used: nat,
                 i: nat)
    requires Linked(prev, next, order, head, tail, len, used) && i < |order|
    ensures order[i] in prev && order[i] in next && prev[order[i]] == Before(order, i)
    ensures next[order[i]] == After(order, i)
    ensures order[i] < used
  {
    hide Before, After, AllDifferent;
  }

  lemma LinkedEnds(prev: Links, next: Links, order: seq<nat>, head: Option<nat>, tail: Option<nat>, len: nat, used: nat)
    requires Linked(prev, next, order, head, tail, len, used)
    ensures head == First(order) && tail == Last(order) && len == |order| && AllDifferent(order)
  {
    hide First, Last, AllDifferent, Points;
  }

  /** Rewriting what a listed node holds. */
  lemma NodeSet(node: map<nat, QNode>, order: seq<nat>, i: nat, x: QNode)
    requires AllDifferent(order) && i < |order|
    ensures Zls(node[order[i] := x], order) == Zls(node, order)[i := x.zl]
    ensures Counted(node, order) && Recorded(x) ==> Counted(node[order[i] := x], order)
    ensures x.sz == x.bytes ==> UnsizedIn(node[order[i] := x], order) == UnsizedIn(node, order) - {order[i]}
  {
    hide Recorded;
    var node' := node[order[i] := x];
    assert forall j :: 0 <= j < |order| && j != i ==> order[j] != order[i];
    assert Zls(node', order) == Zls(node, order)[i := x.zl];
  }

  lemma NodeAt(node: map<nat, QNode>, order: seq<nat>, i: nat)
    requires Counted(node, order) && i < |order|
    ensures order[i] in node && node[order[i]].zl == Zls(node, order)[i]
    ensures node[order[i]].count == |Zls(node, order)[i]| && Recorded(node[order[i]])
    ensures order[i] in UnsizedIn(node, order) <==> node[order[i]].sz != node[order[i]].bytes
  {}

  /** A node outside the list. */
  lemma NodeOutside(node: map<nat, QNode>, order: seq<nat>, x: nat, v: QNode)
    requires x !in order
    ensures Zls(node[x := v], order) == Zls(node, order)
    ensures Counted(node, order) ==> Counted(node[x := v], order)
    ensures UnsizedIn(node[x := v], order) == UnsizedIn(node, order)
  {
    hide Recorded;
  }

  /** A new address is not in the list. */
  lemma NewAddress(prev: Links, next: Links, order: seq<nat>, head: Option<nat>, tail: Option<nat>, len: nat, used: nat)
    requires Linked(prev, next, order, head, tail, len, used)
    ensures used !in order && Linked(prev, next, order, head, tail, len, used + 1)
  {
    hide First, Last, Points;
  }

  /** Linking `x` in at position `i`: what its neighbours then point at. */
  lemma PointsWith(prev: Links, next: Links, prev': Links, next': Links, order: seq<nat>, i: nat, x: nat)
    requires Points(prev, next, order) && AllDifferent(order) && i <= |order| && x !in order
    requires prev'
             == (if i < |order| then prev[x := Before(order, i)][order[i] := Some(x)] else prev[x := Before(order, i)])
    requires next' == (if i > 0 then next[x := if i < |order| then Some(order[i]) else None][order[i - 1] := Some(x)]
                       else next[x := if i < |order| then Some(order[i]) else None])
    ensures Points(prev', next', With(order, i, x)) && AllDifferent(With(order, i, x))
  {
    var order' := With(order, i, x);
    hide With, AllDifferent, Before, After;
    forall j | 0 <= j < |order'|
      ensures order'[j] in prev' && prev'[order'[j]] == Before(order', j)
      ensures order'[j] in next' && next'[order'[j]] == After(order', j)
    {
      hide Points;
      LinkWith(prev, next, prev', next', order, i, x, j);
    }
    DifferentWith(order, i, x);
  }

  /** The links of one node after an insertion. */
  lemma LinkWith(prev: Links, next: Links, prev': Links, next': Links, order: seq<nat>, i: nat, x: nat, j: nat)
    requires Points(prev, next, order) && AllDifferent(order) && i <= |order| && x !in order && j <= |order|
    requires prev'
             == (if i < |order| then prev[x := Before(order, i)][order[i] := Some(x)] else prev[x := Before(order, i)])
    requires next' == (if i > 0 then next[x := if i < |order| then Some(order[i]) else None][order[i - 1] := Some(x)]
                       else next[x := if i < |order| then Some(order[i]) else None])
    ensures var order' := With(order, i, x);
            && order'[j] in prev' && prev'[order'[j]] == Before(order', j)
            && order'[j] in next' && next'[order'[j]] == After(order', j)
  {
    hide *;
    var order' := With(order, i, x);
    BeforeWith(order, i, x, j);
    AfterWith(order, i, x, j);
    if j != i {
      var k := if j < i then j else j - 1;
      assert order'[j] == order[k];
      PointsAt(prev, next, order, k);
      if i < |order| && k != i { Differ(order, k, i); }
      if i > 0 && k != i - 1 { Differ(order, k, i - 1); }
    }
  }

  lemma BeforeWith(order: seq<nat>, i: nat, x: nat, j: nat)
    requires i <= |order| && j <= |order|
    ensures Before(With(order, i, x), j)
            == if j <= i then Before(order, j) else if j == i + 1 then Some(x) else Before(order, j - 1)
  {
    hide With;
  }

  lemma AfterWith(order: seq<nat>, i: nat, x: nat, j: nat)
    requires i <= |order| && j <= |order|
    ensures After(With(order, i, x), j)
            == if j + 1 < i then After(order, j) else if j + 1 == i then Some(x)
               else if j == i then (if i < |order| then Some(order[i]) else None) else After(order, j - 1)
  {
    hide With;
  }

  lemma PointsAt(prev: Links, next: Links, order: seq<nat>, k: nat)
    requires Points(prev, next, order) && k < |order|
    ensures order[k] in prev && prev[order[k]] == Before(order, k) && order[k] in next
    ensures next[order[k]] == After(order, k)
  {}

  lemma Differ(order: seq<nat>, j: nat, k: nat)
    requires AllDifferent(order) && j < |order| && k < |order| && j != k
    ensures order[j] != order[k]
  {}

  lemma DifferentWith(order: seq<nat>, i: nat, x: nat)
    requires AllDifferent(order) && i <= |order| && x !in order
    ensures AllDifferent(With(order, i, x))
  {
    hide With;
  }

  lemma ZlsWith(node: map<nat, QNode>, order: seq<nat>, i: nat, x: nat)
    requires i <= |order| && x in node
    ensures Zls(node, With(order, i, x)) == With(Zls(node, order), i, node[x].zl)
    ensures Counted(node, order) && Recorded(node[x]) ==> Counted(node, With(order, i, x))
  {
    var order' := With(order, i, x);
    hide With, Recorded;
    if Counted(node, order) && Recorded(node[x]) {
      forall j | 0 <= j < |order'| ensures order'[j] in node && Recorded(node[order'[j]]) {
        if j != i { assert order'[j] == order[if j < i then j else j - 1]; }
      }
    }
  }

  lemma UnsizedWith(node: map<nat, QNode>, order: seq<nat>, i: nat, x: nat)
    requires i <= |order| && x in node
    ensures UnsizedIn(node, With(order, i, x))
            == UnsizedIn(node, order) + if node[x].sz != node[x].bytes then {x} else {}
  {
    InWith(order, i, x);
    hide With;
  }

  lemma InWith(order: seq<nat>, i: nat, x: nat)
    requires i <= |order|
    ensures forall n :: n in With(order, i, x) <==> n == x || n in order
  {
    assert order == order[..i] + order[i..];
  }

  lemma UnsizedWithout(node: map<nat, QNode>, order: seq<nat>, i: nat)
    requires i < |order| && AllDifferent(order)
    ensures UnsizedIn(node, Without(order, i)) == UnsizedIn(node, order) - {order[i]}
  {
    InWithout(order, i);
    hide Without, AllDifferent;
  }

  lemma InWithout(order: seq<nat>, i: nat)
    requires i < |order| && AllDifferent(order)
    ensures forall n :: n in Without(order, i) <==> n != order[i] && n in order
  {
    assert order == order[..i] + [order[i]] + order[i + 1..];
  }

  /** Linking the node at position `i` out. */
  lemma PointsWithout(prev: Links, next: Links, prev': Links, next': Links, order: seq<nat>, i: nat)
    requires Points(prev, next, order) && AllDifferent(order) && i < |order|
    requires prev' == if i + 1 < |order| then prev[order[i + 1] := Before(order, i)] else prev
    requires next' == if i > 0 then next[order[i - 1] := After(order, i)] else next
    ensures Points(prev', next', Without(order, i)) && AllDifferent(Without(order, i))
  {
    var order' := Without(order, i);
    hide Without, AllDifferent, Before, After;
    forall j | 0 <= j < |order'|
      ensures order'[j] in prev' && prev'[order'[j]] == Before(order', j)
      ensures order'[j] in next' && next'[order'[j]] == After(order', j)
    {
      hide Points;
      LinkWithout(prev, next, prev', next', order, i, j);
    }
    DifferentWithout(order, i);
  }

  /** The links of one node after another one has gone. */
  lemma LinkWithout(prev: Links, next: Links, prev': Links, next': Links, order: seq<nat>, i: nat, j: nat)
    requires Points(prev, next, order) && AllDifferent(order) && i < |order| && j + 1 < |order|
    requires prev' == if i + 1 < |order| then prev[order[i + 1] := Before(order, i)] else prev
    requires next' == if i > 0 then next[order[i - 1] := After(order, i)] else next
    ensures var order' := Without(order, i);
            && order'[j] in prev' && prev'[order'[j]] == Before(order', j)
            && order'[j] in next' && next'[order'[j]] == After(order', j)
  {
    hide *;
    var order' := Without(order, i);
    var k := if j < i then j else j + 1;
    assert order'[j] == order[k];
    BeforeWithout(order, i, j);
    AfterWithout(order, i, j);
    PointsAt(prev, next, order, k);
    if i + 1 < |order| && k != i + 1 { Differ(order, k, i + 1); }
    if i > 0 && k != i - 1 { Differ(order, k, i - 1); }
  }

  lemma BeforeWithout(order: seq<nat>, i: nat, j: nat)
    requires i < |order| && j + 1 < |order|
    ensures Before(Without(order, i), j) == if j <= i then Before(order, j) else Before(order, j + 1)
  {
    hide Without;
  }

  lemma AfterWithout(order: seq<nat>, i: nat, j: nat)
    requires i < |order| && j + 1 < |order|
    ensures After(Without(order, i), j)
            == if j + 1 < i then After(order, j) else if j + 1 == i then After(order, i) else After(order, j + 1)
  {
    hide Without;
  }

  lemma DifferentWithout(order: seq<nat>, i: nat)
    requires AllDifferent(order) && i < |order|
    ensures AllDifferent(Without(order, i))
  {
    hide Without;
  }

  lemma ZlsWithout(node: map<nat, QNode>, order: seq<nat>, i: nat)
    requires i < |order|
    ensures Zls(node, Without(order, i)) == Without(Zls(node, order), i)
    ensures Counted(node, order) ==> Counted(node, Without(order, i))
  {
    var order' := Without(order, i);
    hide Without, Recorded;
    forall j | 0 <= j < |order'| && Counted(node, order)
        ensures order'[j] in node && Recorded(node[order'[j]])
    {
      assert order'[j] == order[if j < i then j else j + 1];
    }
  }

  lemma LinkedIs(prev: Links, next: Links, order: seq<nat>, head: Option<nat>, tail: Option<nat>, len: nat, used: nat)
    requires AllDifferent(order) && head == First(order) && tail == Last(order) && len == |order|
    requires Points(prev, next, order)
    requires forall i :: 0 <= i < |order| ==> order[i] < used
    ensures Linked(prev, next, order, head, tail, len, used)
  {
    hide AllDifferent, First, Last, Points;
  }

  /** The list with `x` linked in at position `i`. */
  lemma LinkedWith(prev: Links, next: Links, order: seq<nat>, head: Option<nat>, tail: Option<nat>, len: nat, used: nat,
                   i: nat, x: nat)
    requires Linked(prev, next, order, head, tail, len, used) && i <= |order| && x !in order && x < used
    ensures var prev' := if i < |order| then prev[x := Before(order, i)][order[i] := Some(x)]
            else prev[x := Before(order, i)];
            var next' := if i > 0 then next[x := if i < |order| then Some(order[i]) else None][order[i - 1] := Some(x)]
                         else next[x := if i < |order| then Some(order[i]) else None];
            Linked(prev', next', With(order, i, x),
                   if i == 0 then Some(x) else head, if i == |order| then Some(x) else tail, len + 1, used)
  {
    hide *;
    LinkedEnds(prev, next, order, head, tail, len, used);
    LinkedPoints(prev, next, order, head, tail, len, used);
    var prev' := if i < |order| then prev[x := Before(order, i)][order[i] := Some(x)] else prev[x := Before(order, i)];
    var next' := if i > 0 then next[x := if i < |order| then Some(order[i]) else None][order[i - 1] := Some(x)]
                 else next[x := if i < |order| then Some(order[i]) else None];
    PointsWith(prev, next, prev', next', order, i, x);
    EndsWith(order, i, x, used);
    LinkedIs(prev', next', With(order, i, x),
             if i == 0 then Some(x) else head, if i == |order| then Some(x) else tail, len + 1, used);
  }

  /** A node linked to no other is not in the chain that starts at the head: the chain is as long
      as it was, and the length is not. */
  lemma NodeLost(prev: Links, next: Links, order: seq<nat>, head: Option<nat>, tail: Option<nat>, len: nat, used: nat,
                 x: nat)
    requires Linked(prev, next, order, head, tail, len, used) && order != [] && x !in order
    ensures NoChain(prev[x := None], next[x := None], head, tail, len + 1, used)
  {
    var prev', next', len' := prev[x := None], next[x := None], len + 1;
    forall o ensures !Linked(prev', next', o, head, tail, len', used) {
      if Linked(prev', next', o, head, tail, len', used) {
        LinkedEnds(prev', next', o, head, tail, len', used);
        LinkedEnds(prev, next, order, head, tail, len, used);
        SameChain(next, next', order, o, |order| - 1);
      }
    }
  }

  lemma {:induction false} SameChain(next: Links, next': Links, order: seq<nat>, o: seq<nat>, i: nat)
    requires i < |order| && First(o) == First(order)
    requires forall j :: 0 <= j < |order| ==> order[j] in next && next[order[j]] == After(order, j)
    requires forall j :: 0 <= j < |o| ==> o[j] in next' && next'[o[j]] == After(o, j)
    requires forall j :: 0 <= j < |order| ==> order[j] in next' && next'[order[j]] == next[order[j]]
    ensures i < |o| && o[i] == order[i]
    ensures i + 1 == |order| ==> |o| == |order|
  {
    if i > 0 {
      SameChain(next, next', order, o, i - 1);
    }
    assert next'[order[i]] == After(order, i);
  }

  lemma LinkedPoints(prev: Links, next: Links, order: seq<nat>, head: Option<nat>, tail: Option<nat>, len: nat,
                     used: nat)
    requires Linked(prev, next, order, head, tail, len, used)
    ensures Points(prev, next, order) && AllDifferent(order) && forall i :: 0 <= i < |order| ==> order[i] < used
  {
    hide AllDifferent, First, Last, Points;
  }

  lemma EndsWith(order: seq<nat>, i: nat, x: nat, used: nat)
    requires i <= |order| && x < used && forall i :: 0 <= i < |order| ==> order[i] < used
    ensures First(With(order, i, x)) == if i == 0 then Some(x) else First(order)
    ensures Last(With(order, i, x)) == if i == |order| then Some(x) else Last(order)
    ensures forall j :: 0 <= j < |With(order, i, x)| ==> With(order, i, x)[j] < used
  {}

  /** The list with the node at position `i` linked out. */
  lemma LinkedWithout(prev: Links, next: Links, order: seq<nat>, head: Option<nat>, tail: Option<nat>, len: nat,
                      used: nat, i: nat)
    requires Linked(prev, next, order, head, tail, len, used) && i < |order|
    ensures len > 0
    ensures var prev' := if i + 1 < |order| then prev[order[i + 1] := Before(order, i)] else prev;
            var next' := if i > 0 then next[order[i - 1] := After(order, i)] else next;
            Linked(prev', next', Without(order, i),
                   if i == 0 then After(order, i) else head,
                       if i + 1 == |order| then Before(order, i) else tail, len - 1, used)
  {
    hide *;
    LinkedEnds(prev, next, order, head, tail, len, used);
    LinkedPoints(prev, next, order, head, tail, len, used);
    var prev' := if i + 1 < |order| then prev[order[i + 1] := Before(order, i)] else prev;
    var next' := if i > 0 then next[order[i - 1] := After(order, i)] else next;
    PointsWithout(prev, next, prev', next', order, i);
    EndsWithout(order, i, used);
    LinkedIs(prev', next', Without(order, i),
             if i == 0 then After(order, i) else head,
                 if i + 1 == |order| then Before(order, i) else tail, len - 1, used);
  }

  lemma EndsWithout(order: seq<nat>, i: nat, used: nat)
    requires i < |order| && forall i :: 0 <= i < |order| ==> order[i] < used
    ensures First(Without(order, i)) == if i == 0 then After(order, i) else First(order)
    ensures Last(Without(order, i)) == if i + 1 == |order| then Before(order, i) else Last(order)
    ensures forall j :: 0 <= j < |Without(order, i)| ==> Without(order, i)[j] < used
  {}

  // ----- Soundness -----

  lemma SoundAt(zs: seq<seq<Octets>>, fill: int, i: nat)
    requires Sound(zs, fill) && i < |zs|
    ensures SoundNode(zs[i], fill) && zs[i] != [] && (fill > 0 ==> |zs[i]| <= fill)
  {}

  lemma SoundSet(zs: seq<seq<Octets>>, fill: int, i: nat, z: seq<Octets>)
    requires Sound(zs, fill) && i < |zs| && SoundNode(z, fill)
    ensures Sound(zs[i := z], fill)
  {
    hide SoundNode;
  }

  lemma SoundWith(zs: seq<seq<Octets>>, fill: int, i: nat, z: seq<Octets>)
    requires Sound(zs, fill) && i <= |zs| && SoundNode(z, fill)
    ensures Sound(With(zs, i, z), fill)
  {
    hide SoundNode;
  }

  lemma SoundWithout(zs: seq<seq<Octets>>, fill: int, i: nat)
    requires Sound(zs, fill) && i < |zs|
    ensures Sound(Without(zs, i), fill)
  {
    hide SoundNode;
  }
}
