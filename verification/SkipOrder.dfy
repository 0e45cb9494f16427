/** What a skip list stores at each level, as a function of the nodes' heights in list order:
    position 0 is the header, and the node after `r` on level `l` is the next one taller
    than `l`. */
module SkipOrder {
  import opened Seqs

  /** Position of the next node on level `l` after position `r`, or |hs| at the level's end. */
  function Next(hs: seq<nat>, l: nat, r: nat): (n: nat)
    requires r < |hs|
    ensures r < n <= |hs| && (n < |hs| ==> hs[n] > l)
    ensures forall x :: r < x < n ==> hs[x] <= l
    decreases |hs| - r
  {
    if r + 1 == |hs| then |hs| else if hs[r + 1] > l then r + 1 else Next(hs, l, r + 1)
  }

  /** Position of the last node on level `l` at or before position `p`. */
  function Prev(hs: seq<nat>, l: nat, p: nat): (u: nat)
    requires p < |hs| && hs[0] > l
    ensures u <= p && hs[u] > l
    ensures forall x :: u < x <= p ==> hs[x] <= l
  {
    if hs[p] > l then p else Prev(hs, l, p - 1)
  }

  /** Rank distance to the next node; at a level's end, to the end of the list. */
  function Span(hs: seq<nat>, l: nat, r: nat): nat
    requires r < |hs|
  {
    var n := Next(hs, l, r);
    if n < |hs| then n - r else |hs| - 1 - r
  }

  lemma NextIs(hs: seq<nat>, l: nat, r: nat, n: nat)
    requires r < n <= |hs| && (n < |hs| ==> hs[n] > l)
    requires forall x :: r < x < n ==> hs[x] <= l
    ensures Next(hs, l, r) == n
  {}

  lemma PrevIs(hs: seq<nat>, l: nat, p: nat, u: nat)
    requires p < |hs| && hs[0] > l && u <= p && hs[u] > l
    requires forall x :: u < x <= p ==> hs[x] <= l
    ensures Prev(hs, l, p) == u
  {}

  /** The next position after an insertion of height `h` behind position `p`. */
  lemma NextInserted(hs: seq<nat>, p: nat, h: nat, l: nat, r: nat)
    requires p < |hs| && hs[0] > l && r < |hs|
    ensures var hs' := With(hs, p + 1, h);
            var n := Next(hs, l, r);
            && (r <= p && n <= p ==> Next(hs', l, r) == n)
            && (r <= p && n > p ==> Next(hs', l, r) == if h > l then p + 1 else n + 1)
            && (r > p ==> Next(hs', l, r + 1) == n + 1)
            && (r <= p && n > p ==> Next(hs', l, p + 1) == n + 1)
  {
    hide Next, With;
    var hs' := With(hs, p + 1, h);
    var n := Next(hs, l, r);
    if r <= p && n <= p {
      NextIs(hs', l, r, n);
    } else if r <= p {
      NextIs(hs', l, r, if h > l then p + 1 else n + 1);
      NextIs(hs', l, p + 1, n + 1);
    } else {
      NextIs(hs', l, r + 1, n + 1);
    }
  }

  lemma NextRemoved(hs: seq<nat>, q: nat, l: nat, r: nat)
    requires 0 < q < |hs| && hs[0] > l && r < |hs| && r != q
    ensures var hs' := Without(hs, q);
            var n := Next(hs, l, r);
            && (r < q && n < q ==> Next(hs', l, r) == n)
            && (r < q && n == q ==> Next(hs', l, r) == Next(hs, l, q) - 1)
            && (r < q && n > q ==> Next(hs', l, r) == n - 1)
            && (r > q ==> Next(hs', l, r - 1) == n - 1)
  {
    hide Next, Without;
    var hs' := Without(hs, q);
    var n := Next(hs, l, r);
    if r < q && n < q {
      NextIs(hs', l, r, n);
    } else if r < q && n == q {
      NextIs(hs', l, r, Next(hs, l, q) - 1);
    } else if r < q {
      NextIs(hs', l, r, n - 1);
    } else {
      NextIs(hs', l, r - 1, n - 1);
    }
  }

  /** Among positions up to `p`, only the last on the level has its next beyond `p`. */
  lemma PrevNext(hs: seq<nat>, l: nat, p: nat, r: nat)
    requires p < |hs| && hs[0] > l && r <= p && hs[r] > l
    ensures Next(hs, l, r) > p <==> r == Prev(hs, l, p)
  {
    hide Next, Prev;
  }
}
