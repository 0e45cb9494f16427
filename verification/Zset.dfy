/** Sorted sets in their skip list encoding: a skip list and a hash index into it, changed
    together. */
module Zset {
  import opened DictOps
  import opened DictState
  import opened Options
  import opened Seqs
  import opened SkipLinks
  import opened SkipList
  import opened ZKeys

  /** The index holds exactly the listed nodes, each under its element. */
  ghost predicate Agree(nodes: seq<Node>, m: map<Ele, Node>)
  {
    && (forall i :: 1 <= i < |nodes| ==>
        nodes[i].ele.Some? && nodes[i].ele.value in m && m[nodes[i].ele.value] == nodes[i])
    && forall e :: e in m ==> m[e] in nodes && m[e].ele == Some(e)
  }

  /** The scores the index leads to. */
  ghost function ScoresOf(m: map<Ele, Node>): map<Ele, Score> { map e | e in m :: m[e].score }

  /** What zsetAdd reports in its flags. */
  datatype Flag = Quiet | Nop | NaNFlag | Added | Updated

  /** The sum an addition with INCR asks for. */
  function Target(plus: Addition, incr: bool, current: Option<Score>, score: Sum): Sum
  {
    if incr && current.Some? && score.Num? then plus(score.score, current.value) else score
  }

  function Held<V>(m: map<Ele, V>, e: Ele): Option<V> { if e in m then Some(m[e]) else None }

  /** What zsetAdd does, given the element's present score. */
  ghost predicate AddEffect(plus: Addition, scores: map<Ele, Score>, scores': map<Ele, Score>, ele: Ele, score: Sum,
                            incr: bool, nx: bool, xx: bool, ok: bool, flag: Flag, newscore: Option<Score>)
  {
    var current := Held(scores, ele);
    var target := Target(plus, incr, current, score);
    if score.NaN? then !ok && flag == NaNFlag && scores' == scores && newscore.None?
    else if (current.Some? && nx) || (current.None? && xx) then ok && flag == Nop && scores' == scores && newscore.None?
    else if target.NaN? then !ok && flag == NaNFlag && scores' == scores && newscore.None?
    else
      && ok && scores' == scores[ele := target.score]
      && flag == (if current.None? then Added else if target.score == current.value then Quiet else Updated)
      && newscore == if current.None? || incr then Some(target.score) else None
  }

  class Zset {
    const zsl: List
    const dict: Dict<Ele, Node>
    const plus: Addition

    ghost predicate Valid()
      reads this, zsl, dict
    {
      zsl.Valid() && dict.Valid() && Agree(zsl.nodes, dict.m)
    }

    ghost function Scores(): map<Ele, Score>
      reads this, dict
    {
      ScoresOf(dict.m)
    }

    constructor (hash: Ele -> bv64, plus: Addition)
      ensures this.plus == plus && Valid() && fresh(zsl) && fresh(dict) && Scores() == map[]
    {
      zsl := new List();
      dict := new Dict(hash);
      this.plus := plus;
      new;
      assert Agree(zsl.nodes, dict.m);
    }

    /** What the methods use of the invariant. */
    lemma ValidParts()
      requires Valid()
      ensures zsl.Valid() && dict.Valid() && Agree(zsl.nodes, dict.m) && Indexable(zsl.nodes)
      ensures Scores() == ScoresOf(dict.m)
    {
      hide *;
      Whole();
      ListIndexable(zsl);
    }

    lemma Whole()
      requires Valid()
      ensures zsl.Valid() && dict.Valid() && Agree(zsl.nodes, dict.m) && Scores() == ScoresOf(dict.m)
    {}

    lemma IsValid()
      requires zsl.Valid() && dict.Valid() && Agree(zsl.nodes, dict.m)
      ensures Valid() && Scores() == ScoresOf(dict.m)
    {}

    /** zsetAdd; `lvl` is the random level of a node it makes. */
    method Add(score: Sum, ele: Ele, incr: bool, nx: bool, xx: bool, lvl: nat)
      returns (ok: bool, flag: Flag, newscore: Option<Score>)
      requires Valid() && 1 <= lvl <= MAXLEVEL && |dict.m| < LONG_MAX / 2
      modifies zsl, dict
      ensures Valid() && AddEffect(plus, old(Scores()), Scores(), ele, score, incr, nx, xx, ok, flag, newscore)
    {
      ghost var m := dict.m;
      ok, flag, newscore := AddParts(score, ele, incr, nx, xx, lvl);
      AddMeans(plus, m, dict.m, ele, score, incr, nx, xx, ok, flag, newscore);
    }

    method AddParts(score: Sum, ele: Ele, incr: bool, nx: bool, xx: bool, lvl: nat)
      returns (ok: bool, flag: Flag, newscore: Option<Score>)
      requires Valid() && 1 <= lvl <= MAXLEVEL && |dict.m| < LONG_MAX / 2
      modifies zsl, dict
      ensures Valid()
      ensures score.NaN? ==> !ok && flag == NaNFlag && newscore.None? && dict.m == old(dict.m)
      ensures score.Num? && ele in old(dict.m) ==>
        var sum := if incr then plus(score.score, old(dict.m)[ele].score) else score;
        if nx then ok && flag == Nop && newscore.None? && dict.m == old(dict.m)
        else if sum.NaN? then !ok && flag == NaNFlag && newscore.None? && dict.m == old(dict.m)
        else
          && ok && newscore == (if incr then Some(sum.score) else None)
          && (sum.score == old(dict.m)[ele].score ==> flag == Quiet && dict.m == old(dict.m))
          && (sum.score != old(dict.m)[ele].score ==> flag == Updated && Stored(old(dict.m), dict.m, ele, sum.score))
      ensures score.Num? && ele !in old(dict.m) ==>
        if xx then ok && flag == Nop && newscore.None? && dict.m == old(dict.m)
        else ok && flag == Added && newscore == Some(score.score) && Stored(old(dict.m), dict.m, ele, score.score)
    {
      hide *;
      ValidParts();
      ok, flag, newscore := true, Quiet, None;
      if score.NaN? {
        return false, NaNFlag, None;
      }
      var de := dict.Find(ele);
      IsValid();
      if de.Some? {
        if nx { return true, Nop, None; }
        var curscore := de.value.score;
        var sum := if incr then plus(score.score, curscore) else score;
        if sum.NaN? { return false, NaNFlag, None; }
        if incr { newscore := Some(sum.score); }
        if sum.score != curscore {
          ChangeScore(ele, curscore, sum.score, lvl);
          flag := Updated;
        }
      } else if !xx {
        AddNew(ele, score.score, lvl);
        flag, newscore := Added, Some(score.score);
      } else {
        flag := Nop;
      }
    }

    /** A new score for an element: its node is taken out and another one put in. */
    method ChangeScore(ele: Ele, curscore: Score, score: Score, lvl: nat)
      requires Valid() && 1 <= lvl <= MAXLEVEL && ele in dict.m && dict.m[ele].score == curscore
      modifies zsl, dict
      ensures Valid() && Stored(old(dict.m), dict.m, ele, score)
    {
      hide *;
      ValidParts();
      ghost var nodes, m := zsl.nodes, dict.m;
      Present(nodes, m, ele);
      ghost var q, p;
      var found, znode;
      found, q := zsl.Delete(curscore, ele);
      AgreeRemoved(nodes, m, q);
      NotListed(zsl.nodes, m - {ele}, score, ele);
      ghost var rest := zsl.nodes;
      znode, p := zsl.Insert(score, ele, lvl);
      AgreeInserted(rest, m - {ele}, p, znode, ele);
      dict.SetVal(ele, znode);
      assert (m - {ele})[ele := znode] == m[ele := znode];
      StoredIs(m, ele, znode);
      IsValid();
    }

    method AddNew(ele: Ele, score: Score, lvl: nat)
      requires Valid() && 1 <= lvl <= MAXLEVEL && ele !in dict.m && |dict.m| < LONG_MAX / 2
      modifies zsl, dict
      ensures Valid() && Stored(old(dict.m), dict.m, ele, score)
    {
      hide *;
      ValidParts();
      ghost var nodes, m := zsl.nodes, dict.m;
      SizeOf(dict);
      NotListed(nodes, m, score, ele);
      ghost var p;
      var znode;
      znode, p := zsl.Insert(score, ele, lvl);
      AgreeInserted(nodes, m, p, znode, ele);
      var _ := dict.Add(ele, znode);
      StoredIs(m, ele, znode);
      IsValid();
    }

    /** zsetDel. */
    method Del(ele: Ele) returns (ok: bool)
      requires Valid()
      modifies zsl, dict
      ensures Valid() && (ok <==> ele in old(Scores())) && Scores() == old(Scores()) - {ele}
    {
      hide *;
      Whole();
      DelScores(dict.m, ele);
      ok := DelParts(ele);
      Whole();
    }

    method DelParts(ele: Ele) returns (ok: bool)
      requires Valid()
      modifies zsl, dict
      ensures Valid() && (ok <==> ele in old(dict.m)) && dict.m == old(dict.m) - {ele}
    {
      hide *;
      ValidParts();
      ghost var nodes, m := zsl.nodes, dict.m;
      var de;
      ghost var s, second, i, j, q;
      de, s, second, i, j := dict.Delete(ele);
      if de.None? {
        assert m - {ele} == m;
        IsValid();
        return false;
      }
      Present(nodes, m, ele);
      var found;
      found, q := zsl.Delete(de.value.val.score, ele);
      AgreeRemoved(nodes, m, q);
      ResizeIfNeeded();
      IsValid();
      return true;
    }

    method ResizeIfNeeded()
      requires dict.Valid()
      modifies dict
      ensures dict.Valid() && dict.m == old(dict.m)
      ensures var s := old(dict.S());
              if old(dict.canResize) && Sparse(s) then dict.S().Rehashing() && dict.S().ht1.Size() < s.ht0.Size()
              else dict.S() == s
    {
      hide Stands, PowerFor, ResizeGoal;
      DictFields(dict);
      ghost var s := dict.S();
      if dict.canResize && Sparse(s) { Shrinks(s.ht0.used, s.ht0.Size()); }
      if dict.NeedsResize() { var _ := dict.Resize(); }
    }

    /** zsetRank: how many elements come before this one, or after it if `reverse`; -1 for one
        that is not there. */
    method Rank(ele: Ele, reverse: bool) returns (r: int)
      requires Valid()
      modifies dict
      ensures Valid() && dict.m == old(dict.m) && Scores() == old(Scores())
      ensures ele !in Scores() ==> r == -1
      ensures ele in Scores() && !reverse ==> r == |Below(Scores(), ele)|
      ensures ele in Scores() && reverse ==> r == |Above(Scores(), ele)|
      ensures ele in Scores() ==> forall e :: e in Scores() && Scores()[e] == Scores()[ele] && Lexicographic(e, ele) ==>
        if reverse then r < |Above(Scores(), e)| else r > |Below(Scores(), e)|
    {
      hide *;
      ValidParts();
      InScores(dict.m, ele);
      var de := dict.Find(ele);
      IsValid();
      if de.None? { return -1; }
      Present(zsl.nodes, dict.m, ele);
      LengthOf(zsl);
      var rank;
      ghost var p;
      rank, p := zsl.GetRank(de.value.score, ele);
      ListOrdered(zsl);
      RankCounts(zsl.nodes, zsl.level, dict.m, rank);
      r := if reverse then zsl.length - rank else rank - 1;
      forall e | e in Scores() && Scores()[e] == Scores()[ele] && Lexicographic(e, ele)
        ensures if reverse then r < |Above(Scores(), e)| else r > |Below(Scores(), e)|
      {
        RanksInOrder(Scores(), e, ele);
      }
    }

    /** zslGetElementByRank and then zslGetRank of the node found: the rank asked for. */
    method RankOfElementByRank(rank: nat) returns (r: nat)
      requires Valid() && 1 <= rank <= zsl.length
      ensures r == rank
    {
      hide *;
      ValidParts();
      LengthOf(zsl);
      var x := zsl.GetElementByRank(rank);
      RankIs(zsl.nodes, dict.m, rank, 0);
      ghost var p;
      r, p := zsl.GetRank(x.value.score, x.value.ele.value);
      RankIs(zsl.nodes, dict.m, rank, r);
    }

    /** One round of a range deletion: the node behind position `p` leaves list and index. */
    method DropNext(x: Node, update: seq<Node>, ghost rank: seq<int>, ghost p: nat) returns (next: Option<Node>)
      requires Valid() && Path(zsl.nodes, zsl.level, p, update, rank) && p + 1 < |zsl.nodes| && x == zsl.nodes[p + 1]
      modifies zsl, dict
      ensures Valid() && zsl.nodes == Without(old(zsl.nodes), p + 1) && next == NextOf(zsl.nodes, p)
      ensures zsl.level <= |update| && zsl.level <= |rank|
      ensures Path(zsl.nodes, zsl.level, p, update[..zsl.level], rank[..zsl.level])
    {
      hide *;
      ValidParts();
      ghost var nodes, m := zsl.nodes, dict.m;
      ForwardOf(zsl, p + 1);
      next := zsl.links[x][0].forward;
      AgreeRemoved(nodes, m, p + 1);
      zsl.DeleteNode(x, update, rank, p);
      NextOfIs(nodes, p + 1);
      NextOfIs(zsl.nodes, p);
      var e;
      ghost var s, second, i, j;
      e, s, second, i, j := dict.Delete(x.ele.value);
      IsValid();
    }

    /** zslDeleteRangeByScore. */
    method DeleteRangeByScore(range: Range) returns (removed: nat)
      requires Valid()
      modifies zsl, dict
      ensures Valid() && Scores() == old(Scores()) - Within(old(Scores()), range)
      ensures removed == |Within(old(Scores()), range)|
      ensures range.min.Fin? && range.max.Fin? ==>
        Scores() == old(Scores()) - Interval(old(Scores()), range.min.v, range.max.v, range.minex, range.maxex)
    {
      hide *;
      ValidParts();
      WithinMeans(Scores(), range);
      ghost var nodes, m := zsl.nodes, dict.m;
      ListOrdered(zsl);
      ghost var level := zsl.level;
      ghost var p := MinPivot(nodes, level, range);
      ghost var rank;
      var update;
      update, rank := zsl.Descend(BelowMin(range), p);
      removed := DropUpTo(range, update, rank, p);
      StoppedAt(nodes, level, range, p, removed);
      RangeSize(nodes, m, range, p, removed);
      ValidParts();
      DroppedScores(nodes, m, dict.m, range, p, removed);
    }

    method DropUpTo(range: Range, update0: seq<Node>, ghost rank0: seq<int>, ghost p: nat) returns (removed: nat)
      requires Valid() && Path(zsl.nodes, zsl.level, p, update0, rank0)
      modifies zsl, dict
      ensures Valid() && p + removed < |old(zsl.nodes)| && zsl.nodes == Dropped(old(zsl.nodes), p, removed)
      ensures UpTo(old(zsl.nodes), range, p, removed)
      ensures p + removed + 1 < |old(zsl.nodes)| ==> !LteMax(range, old(zsl.nodes)[p + removed + 1].score)
    {
      hide *;
      ValidParts();
      Bottom(zsl, p, update0, rank0);
      ghost var nodes := zsl.nodes;
      var x, update := zsl.links[update0[0]][0].forward, update0;
      ghost var rank := rank0;
      removed := 0;
      DroppedNone(nodes, p);
      UpToNone(nodes, range, p);
      while x.Some? && LteMax(range, x.value.score)
        invariant Valid() && Path(zsl.nodes, zsl.level, p, update, rank) && x == NextOf(zsl.nodes, p)
        invariant p + removed < |nodes| && zsl.nodes == Dropped(nodes, p, removed) && UpTo(nodes, range, p, removed)
        decreases |nodes| - removed
      {
        NextOfIs(zsl.nodes, p);
        DroppedOne(nodes, p, removed);
        UpToOne(nodes, range, p, removed);
        x := DropNext(x.value, update, rank, p);
        update, rank := update[..zsl.level], rank[..zsl.level];
        removed := removed + 1;
      }
      NextOfIs(zsl.nodes, p);
      DroppedOne(nodes, p, removed);
    }

    /** zslDeleteRangeByRank: ranks `start` to `end`, from 1; rank 0 as start means the same
        as 1. */
    method DeleteRangeByRank(start: nat, end: nat) returns (removed: nat)
      requires Valid()
      modifies zsl, dict
      ensures Valid() && removed == RanksIn(|old(zsl.nodes)| - 1, start, end)
      ensures removed > 0 ==> zsl.nodes == Dropped(old(zsl.nodes), if start == 0 then 0 else start - 1, removed)
      ensures removed == 0 ==> zsl.nodes == old(zsl.nodes)
    {
      hide *;
      ghost var nodes := zsl.nodes;
      ValidParts();
      LengthOf(zsl);
      ghost var p := RankPivotOf(nodes, start);
      RankPivotIs(nodes, start, p);
      ghost var rank;
      var update, traversed;
      update, traversed, rank := zsl.DescendRank(start, p);
      Bottom(zsl, p, update, rank);
      traversed := traversed + 1;
      var x := zsl.links[update[0]][0].forward;
      removed := 0;
      DroppedNone(nodes, p);
      while x.Some? && traversed <= end
        invariant Valid() && Path(zsl.nodes, zsl.level, p, update, rank) && x == NextOf(zsl.nodes, p)
        invariant p + removed < |nodes| && zsl.nodes == Dropped(nodes, p, removed) && traversed == p + removed + 1
        invariant removed > 0 ==> traversed <= end + 1
        decreases |nodes| - removed
      {
        NextOfIs(zsl.nodes, p);
        DroppedOne(nodes, p, removed);
        x := DropNext(x.value, update, rank, p);
        update, rank := update[..zsl.level], rank[..zsl.level];
        removed, traversed := removed + 1, traversed + 1;
      }
      NextOfIs(zsl.nodes, p);
      DroppedOne(nodes, p, removed);
      RanksIs(|nodes| - 1, start, end, p, removed);
    }

    /** The skip list branch of RcZCount: two ranks and a subtraction. */
    method Count(range: Range) returns (count: int)
      requires Valid()
      ensures count == |Within(Scores(), range)|
      ensures range.min == range.max && !range.minex && !range.maxex ==> count == |WithScore(Scores(), range.min)|
      ensures range.min.Fin? && range.max.Fin? ==>
        count == |Interval(Scores(), range.min.v, range.max.v, range.minex, range.maxex)|
    {
      hide *;
      ValidParts();
      WithinMeans(Scores(), range);
      ListOrdered(zsl);
      LengthOf(zsl);
      ghost var nodes, m := zsl.nodes, dict.m;
      ghost var q, r, p;
      var zn, rank;
      count := 0;
      zn, q := zsl.FirstInRange(range);
      if zn.Some? {
        FirstFacts(nodes, range, q);
        RankIs(nodes, m, q, 0);
        rank, p := zsl.GetRank(zn.value.score, zn.value.ele.value);
        RankIs(nodes, m, q, rank);
        count := zsl.length - (rank - 1);
        zn, r := zsl.LastInRange(range);
        if zn.Some? {
          LastFacts(nodes, range, r);
          RankIs(nodes, m, r, 0);
          rank, p := zsl.GetRank(zn.value.score, zn.value.ele.value);
          RankIs(nodes, m, r, rank);
          count := count - (zsl.length - rank);
          Between(nodes, zsl.level, range, q, r);
          RangeSize(nodes, m, range, q - 1, r - q + 1);
        } else {
          FirstIsIn(nodes, range, q);
        }
      } else {
        NoneIsEmpty(nodes, range);
        RangeSize(nodes, m, range, 0, 0);
      }
    }
  }

  // ----- Ranges -----

  /** The list without the `k` nodes behind position `p`. */
  ghost function Dropped(nodes: seq<Node>, p: nat, k: nat): (r: seq<Node>)
    requires p + k < |nodes|
  {
    nodes[..p + 1] + nodes[p + 1 + k..]
  }

  /** The nodes in the range are the `k` behind position `p`. */
  ghost predicate RangeIs(nodes: seq<Node>, range: Range, p: nat, k: nat)
  {
    p + k < |nodes| && forall i :: 1 <= i < |nodes| ==> (InRange(range, nodes[i].score) <==> p < i <= p + k)
  }

  /** The elements whose score is in the range. */
  ghost function Within(scores: map<Ele, Score>, range: Range): set<Ele>
  {
    set e | e in scores && InRange(range, scores[e])
  }

  /** The elements with one score, and those with scores in an interval of reals. */
  ghost function WithScore(scores: map<Ele, Score>, s: Score): set<Ele> { set e | e in scores && scores[e] == s }

  ghost function Interval(scores: map<Ele, Score>, lo: real, hi: real, minex: bool, maxex: bool): set<Ele>
  {
    set e | e in scores && scores[e].Fin? && (lo < scores[e].v || (lo == scores[e].v && !minex))
            && (scores[e].v < hi || (scores[e].v == hi && !maxex))
  }

  /** What a range selects, said without the tests of its ends. */
  lemma WithinMeans(scores: map<Ele, Score>, range: Range)
    ensures range.min == range.max && !range.minex && !range.maxex ==>
            Within(scores, range) == WithScore(scores, range.min)
    ensures range.min.Fin? && range.max.Fin? ==>
            Within(scores, range) == Interval(scores, range.min.v, range.max.v, range.minex, range.maxex)
    ensures range.min.NegInf? && range.max.PosInf? && !range.minex && !range.maxex ==>
            Within(scores, range) == scores.Keys
  {
    forall e | e in scores && range.min == range.max && !range.minex && !range.maxex
      ensures InRange(range, scores[e]) <==> scores[e] == range.min
    {
      OneScoreRange(range.min, scores[e]);
    }
    forall e | e in scores && range.min.Fin? && range.max.Fin?
      ensures InRange(range, scores[e]) <==> e in Interval(scores, range.min.v, range.max.v, range.minex, range.maxex)
    {
      FiniteRange(range.min.v, range.max.v, range.minex, range.maxex, if scores[e].Fin? then scores[e].v else 0.0);
    }
    forall e | e in scores && range.min.NegInf? && range.max.PosInf? && !range.minex && !range.maxex
      ensures InRange(range, scores[e])
    {
      WholeRange(false, false, if scores[e].Fin? then scores[e].v else 0.0);
    }
  }

  /** Making an end inclusive adds just the elements whose score is that end, if the other end
      lets them in, and none if it does not. */
  lemma InclusiveEndAdds(scores: map<Ele, Score>, range: Range)
    ensures Within(scores, range.(minex := false))
            == Within(scores, range.(minex := true))
               + if ScoreLess(range.min, range.max) || (range.min == range.max && !range.maxex)
                 then WithScore(scores, range.min) else {}
    ensures Within(scores, range.(maxex := false))
            == Within(scores, range.(maxex := true))
               + if ScoreLess(range.min, range.max) || (range.min == range.max && !range.minex)
                 then WithScore(scores, range.max) else {}
    ensures Within(scores, range.(minex := true)) !! WithScore(scores, range.min)
    ensures Within(scores, range.(maxex := true)) !! WithScore(scores, range.max)
  {
    forall e | e in scores
      ensures InRange(range.(minex := false), scores[e]) <==>
              InRange(range.(minex := true), scores[e]) || (scores[e] == range.min && LteMax(range, range.min))
      ensures InRange(range.(maxex := false), scores[e]) <==>
              InRange(range.(maxex := true), scores[e]) || (scores[e] == range.max && GteMin(range, range.max))
    {
      InclusiveEnds(range, scores[e]);
    }
    InclusiveEnds(range, range.min);
    InclusiveEnds(range, range.max);
  }

  /** The elements of the `k` nodes behind position `p`. */
  ghost function Slice(nodes: seq<Node>, p: nat, k: nat): set<Ele>
    requires p + k < |nodes| && forall i :: 1 <= i < |nodes| ==> nodes[i].ele.Some?
  {
    set i | p < i <= p + k :: nodes[i].ele.value
  }

  lemma DroppedNone(nodes: seq<Node>, p: nat)
    requires p < |nodes|
    ensures Dropped(nodes, p, 0) == nodes
  {}

  lemma DroppedOne(nodes: seq<Node>, p: nat, k: nat)
    requires p + k < |nodes|
    ensures |Dropped(nodes, p, k)| == |nodes| - k
    ensures p + 1 < |nodes| - k ==> p + k + 1 < |nodes| && Dropped(nodes, p, k)[p + 1] == nodes[p + k + 1]
    ensures p + 1 < |nodes| - k ==> Without(Dropped(nodes, p, k), p + 1) == Dropped(nodes, p, k + 1)
  {}

  /** What the index leads to, by position. */
  lemma Position(nodes: seq<Node>, m: map<Ele, Node>, e: Ele) returns (i: nat)
    requires Agree(nodes, m) && Indexable(nodes) && e in m
    ensures 1 <= i < |nodes| && nodes[i] == m[e] && nodes[i].ele == Some(e)
  {
    i :| i < |nodes| && nodes[i] == m[e];
  }

  lemma Listed(nodes: seq<Node>, m: map<Ele, Node>, i: nat)
    requires Agree(nodes, m) && 1 <= i < |nodes|
    ensures nodes[i].ele.Some? && nodes[i].ele.value in m && m[nodes[i].ele.value] == nodes[i]
  {}

  lemma DroppedAt(nodes: seq<Node>, p: nat, k: nat, j: nat)
    requires p + k < |nodes|
    ensures |Dropped(nodes, p, k)| == |nodes| - k
    ensures j < |nodes| - k ==> Dropped(nodes, p, k)[j] == nodes[if j <= p then j else j + k]
  {}

  lemma DroppedIndexable(nodes: seq<Node>, p: nat, k: nat)
    requires p + k < |nodes| && Indexable(nodes)
    ensures Indexable(Dropped(nodes, p, k))
  {}

  lemma RangeAt(nodes: seq<Node>, range: Range, p: nat, k: nat, i: nat)
    requires RangeIs(nodes, range, p, k) && 1 <= i < |nodes|
    ensures InRange(range, nodes[i].score) <==> p < i <= p + k
  {}

  /** An element is in the index that is left just if its score is out of the range. */
  lemma DroppedElement(nodes: seq<Node>, m: map<Ele, Node>, m': map<Ele, Node>, range: Range, p: nat, k: nat, e: Ele)
    requires p + k < |nodes| && Agree(nodes, m) && Indexable(nodes) && RangeIs(nodes, range, p, k)
    requires Agree(Dropped(nodes, p, k), m')
    ensures e in m' <==> e in m && !InRange(range, m[e].score)
    ensures e in m' ==> m'[e] == m[e]
  {
    hide *;
    DroppedIndexable(nodes, p, k);
    if e in m' {
      var j := Position(Dropped(nodes, p, k), m', e);
      DroppedAt(nodes, p, k, j);
      var i := if j <= p then j else j + k;
      Listed(nodes, m, i);
      RangeAt(nodes, range, p, k, i);
    }
    if e in m && !InRange(range, m[e].score) {
      var i := Position(nodes, m, e);
      RangeAt(nodes, range, p, k, i);
      var j := if i <= p then i else i - k;
      DroppedAt(nodes, p, k, j);
      Listed(Dropped(nodes, p, k), m', j);
    }
  }

  /** The scores that are left are those out of the range. */
  lemma DroppedScores(nodes: seq<Node>, m: map<Ele, Node>, m': map<Ele, Node>, range: Range, p: nat, k: nat)
    requires p + k < |nodes| && Agree(nodes, m) && Indexable(nodes) && RangeIs(nodes, range, p, k)
    requires Agree(Dropped(nodes, p, k), m')
    ensures ScoresOf(m') == ScoresOf(m) - Within(ScoresOf(m), range)
  {
    hide Agree, Indexable, RangeIs, Dropped, InRange;
    forall e: Ele ensures (e in m' <==> e in m && !InRange(range, m[e].score)) && (e in m' ==> m'[e] == m[e]) {
      DroppedElement(nodes, m, m', range, p, k, e);
    }
  }

  /** The positions of the range are as many as the elements in it. */
  lemma RangeSize(nodes: seq<Node>, m: map<Ele, Node>, range: Range, p: nat, k: nat)
    requires Agree(nodes, m) && Indexable(nodes) && RangeIs(nodes, range, p, k)
    ensures |Within(ScoresOf(m), range)| == k
  {
    hide InRange;
    SliceSize(nodes, m, p, k);
    forall e | e in m && InRange(range, m[e].score) ensures e in Slice(nodes, p, k) {
      var i :| 0 <= i < |nodes| && nodes[i] == m[e];
      assert p < i <= p + k;
    }
    assert Within(ScoresOf(m), range) == Slice(nodes, p, k);
  }

  lemma {:induction false} SliceSize(nodes: seq<Node>, m: map<Ele, Node>, p: nat, k: nat)
    requires Agree(nodes, m) && Indexable(nodes) && p + k < |nodes|
    ensures |Slice(nodes, p, k)| == k
  {
    hide *;
    if k == 0 {
      SliceNone(nodes, m, p);
    } else {
      Listed(nodes, m, p + k);
      SliceSize(nodes, m, p, k - 1);
      SliceStep(nodes, m, p, k);
    }
  }

  lemma SliceNone(nodes: seq<Node>, m: map<Ele, Node>, p: nat)
    requires Agree(nodes, m) && p < |nodes|
    ensures Slice(nodes, p, 0) == {}
  {}

  lemma SliceStep(nodes: seq<Node>, m: map<Ele, Node>, p: nat, k: nat)
    requires Agree(nodes, m) && Indexable(nodes) && p + k < |nodes| && k > 0
    ensures nodes[p + k].ele.Some?
    ensures Slice(nodes, p, k) == Slice(nodes, p, k - 1) + {nodes[p + k].ele.value}
    ensures nodes[p + k].ele.value !in Slice(nodes, p, k - 1)
  {
    var e := nodes[p + k].ele.value;
    assert Slice(nodes, p, k) == Slice(nodes, p, k - 1) + {e};
    forall i | p < i < p + k ensures nodes[i].ele.value != e {
      assert nodes[i] != nodes[p + k];
    }
  }

  /** The elements that come before one, and those that come after it. */
  ghost function Below(scores: map<Ele, Score>, ele: Ele): set<Ele>
    requires ele in scores
  {
    set e | e in scores && Less(scores[e], e, scores[ele], ele)
  }

  ghost function Above(scores: map<Ele, Score>, ele: Ele): set<Ele>
    requires ele in scores
  {
    set e | e in scores && Less(scores[ele], ele, scores[e], e)
  }

  /** Of two elements the one with the lower score has the lower rank, and of two with one score
      the one that is first as a byte string; the other rank is the higher then. */
  lemma RanksInOrder(scores: map<Ele, Score>, a: Ele, b: Ele)
    requires a in scores && b in scores
    requires ScoreLess(scores[a], scores[b]) || (scores[a] == scores[b] && Lexicographic(a, b))
    ensures |Below(scores, a)| < |Below(scores, b)| && |Above(scores, b)| < |Above(scores, a)|
  {
    CompareIsLexicographic(a, b);
    LessTotal(scores[a], a, scores[a], a);
    LessTotal(scores[b], b, scores[b], b);
    assert Less(scores[a], a, scores[b], b);
    hide Less, Lexicographic;
    forall e | e in Below(scores, a) ensures e in Below(scores, b) {
      LessTransitive(scores[e], e, scores[a], a, scores[b], b);
    }
    forall e | e in Above(scores, b) ensures e in Above(scores, a) {
      LessTransitive(scores[a], a, scores[b], b, scores[e], e);
    }
    Fewer(Below(scores, a), Below(scores, b), a);
    Fewer(Above(scores, b), Above(scores, a), b);
  }

  lemma Fewer(s: set<Ele>, t: set<Ele>, e: Ele)
    requires s <= t && e in t && e !in s
    ensures |s| < |t|
  {
    assert t == s + {e} + (t - s - {e});
  }

  /** Of two listed nodes the one at the lower position has the lesser key. */
  lemma KeysSorted(nodes: seq<Node>, level: nat, i: nat, j: nat)
    requires Ordered(nodes, level) && 1 <= i < |nodes| && 1 <= j < |nodes|
    ensures nodes[i].ele.Some? && nodes[j].ele.Some?
    ensures Less(nodes[i].score, nodes[i].ele.value, nodes[j].score, nodes[j].ele.value) <==> i < j
  {
    hide Less;
    LessTotal(nodes[i].score, nodes[i].ele.value, nodes[j].score, nodes[j].ele.value);
    if i < j {
      assert KeyLess(nodes[i], nodes[j]);
    } else if j < i {
      assert KeyLess(nodes[j], nodes[i]);
    }
  }

  lemma SliceAt(nodes: seq<Node>, m: map<Ele, Node>, p: nat, k: nat, i: nat)
    requires Agree(nodes, m) && Indexable(nodes) && p + k < |nodes| && 1 <= i < |nodes|
    ensures nodes[i].ele.Some? && (nodes[i].ele.value in Slice(nodes, p, k) <==> p < i <= p + k)
  {
    if nodes[i].ele.value in Slice(nodes, p, k) {
      var j :| p < j <= p + k && nodes[j].ele.value == nodes[i].ele.value;
      assert m[nodes[j].ele.value] == m[nodes[i].ele.value];
    }
  }

  lemma SliceListed(nodes: seq<Node>, m: map<Ele, Node>, p: nat, k: nat, e: Ele)
    requires Agree(nodes, m) && p + k < |nodes|
    ensures e in Slice(nodes, p, k) ==> e in m
  {}

  /** A node's rank is one more than the number of elements before it. */
  lemma RankCounts(nodes: seq<Node>, level: nat, m: map<Ele, Node>, q: nat)
    requires Ordered(nodes, level) && Agree(nodes, m) && Indexable(nodes) && 1 <= q < |nodes|
    ensures nodes[q].ele.Some? && nodes[q].ele.value in ScoresOf(m)
    ensures |Below(ScoresOf(m), nodes[q].ele.value)| == q - 1
    ensures |Above(ScoresOf(m), nodes[q].ele.value)| == |nodes| - 1 - q
  {
    Listed(nodes, m, q);
    var ele, scores := nodes[q].ele.value, ScoresOf(m);
    SliceSize(nodes, m, 0, q - 1);
    SliceSize(nodes, m, q, |nodes| - 1 - q);
    hide Ordered, Agree, Indexable, Less, Slice;
    forall e: Ele
      ensures e in Below(scores, ele) <==> e in Slice(nodes, 0, q - 1)
      ensures e in Above(scores, ele) <==> e in Slice(nodes, q, |nodes| - 1 - q)
    {
      SliceListed(nodes, m, 0, q - 1, e);
      SliceListed(nodes, m, q, |nodes| - 1 - q, e);
      if e in m {
        var i := Position(nodes, m, e);
        KeysSorted(nodes, level, i, q);
        KeysSorted(nodes, level, q, i);
        SliceAt(nodes, m, 0, q - 1, i);
        SliceAt(nodes, m, q, |nodes| - 1 - q, i);
      }
    }
    assert Below(scores, ele) == Slice(nodes, 0, q - 1);
    assert Above(scores, ele) == Slice(nodes, q, |nodes| - 1 - q);
  }

  lemma NoneIsEmpty(nodes: seq<Node>, range: Range)
    requires |nodes| > 0 && NoneInRange(nodes, range)
    ensures RangeIs(nodes, range, 0, 0)
  {}

  /** Between the first and the last node in the range all are. */
  lemma Between(nodes: seq<Node>, level: nat, range: Range, q: nat, r: nat)
    requires Ordered(nodes, level) && FirstOf(nodes, range, q) && LastOf(nodes, range, r)
    ensures q <= r && RangeIs(nodes, range, q - 1, r - q + 1)
  {
    hide Ordered, GteMin, LteMax;
    forall i | q <= i <= r ensures InRange(range, nodes[i].score) {
      ScoresSorted(nodes, level, q, i);
      ScoresSorted(nodes, level, i, r);
      RangeMonotone(range, nodes[q].score, nodes[i].score);
      RangeMonotone(range, nodes[i].score, nodes[r].score);
    }
  }

  /** Where a walk from the first node not below the range stops. */
  lemma StoppedAt(nodes: seq<Node>, level: nat, range: Range, p: nat, k: nat)
    requires Ordered(nodes, level) && Pivot(nodes, BelowMin(range), p) && p + k < |nodes| && UpTo(nodes, range, p, k)
    requires p + k + 1 < |nodes| ==> !LteMax(range, nodes[p + k + 1].score)
    ensures RangeIs(nodes, range, p, k)
  {
    hide Ordered, GteMin, LteMax;
    forall i | p + k < i < |nodes| ensures !LteMax(range, nodes[i].score) {
      ScoresSorted(nodes, level, p + k + 1, i);
      RangeMonotone(range, nodes[p + k + 1].score, nodes[i].score);
    }
  }

  /** The `k` nodes behind position `p` are within the upper end. */
  ghost predicate UpTo(nodes: seq<Node>, range: Range, p: nat, k: nat)
    requires p + k < |nodes|
  {
    forall i :: p < i <= p + k ==> LteMax(range, nodes[i].score)
  }

  lemma UpToOne(nodes: seq<Node>, range: Range, p: nat, k: nat)
    requires p + k + 1 < |nodes| && UpTo(nodes, range, p, k) && LteMax(range, nodes[p + k + 1].score)
    ensures UpTo(nodes, range, p, k + 1)
  {}

  lemma UpToNone(nodes: seq<Node>, range: Range, p: nat)
    requires p < |nodes|
    ensures UpTo(nodes, range, p, 0)
  {}

  /** The node at position `q` is the only one with its element. */
  lemma RankIs(nodes: seq<Node>, m: map<Ele, Node>, q: nat, rank: nat)
    requires Agree(nodes, m) && Indexable(nodes) && 1 <= q < |nodes| && rank < |nodes|
    ensures nodes[q].ele.Some? && !Absent(nodes, nodes[q].score, nodes[q].ele.value)
    ensures rank > 0 && nodes[rank].ele == nodes[q].ele ==> rank == q
  {}

  lemma ListOrdered(zsl: List)
    requires zsl.Valid()
    ensures Ordered(zsl.nodes, zsl.level)
  {
    hide *;
    zsl.ValidParts();
    StructuredParts(zsl.nodes, Levels(zsl.links, zsl.nodes), zsl.level);
  }

  /** How many of the ranks `start` to `end` a list of `length` nodes has. */
  function RanksIn(length: nat, start: nat, end: nat): nat
  {
    var lo, hi := if start == 0 then 1 else start, if end < length then end else length;
    if lo <= hi then hi - lo + 1 else 0
  }

  lemma RanksIs(length: nat, start: nat, end: nat, p: nat, removed: nat)
    requires p == if start == 0 then 0 else if start <= length + 1 then start - 1 else length
    requires p + removed <= length && (p + removed == length || p + removed + 1 > end)
    requires removed > 0 ==> p + removed <= end
    ensures removed == RanksIn(length, start, end)
  {}

  lemma RankPivotIs(nodes: seq<Node>, limit: nat, p: nat)
    requires RankPivot(nodes, limit, p)
    ensures p < |nodes| && p == if limit == 0 then 0 else if limit <= |nodes| then limit - 1 else |nodes| - 1
  {}

  lemma FirstFacts(nodes: seq<Node>, range: Range, q: nat)
    requires FirstOf(nodes, range, q)
    ensures 1 <= q < |nodes|
  {}

  lemma FirstIsIn(nodes: seq<Node>, range: Range, q: nat)
    requires FirstOf(nodes, range, q)
    ensures !NoneInRange(nodes, range)
  {}

  lemma LastFacts(nodes: seq<Node>, range: Range, q: nat)
    requires LastOf(nodes, range, q)
    ensures 1 <= q < |nodes|
  {}

  /** The node behind position `p`, or none. */
  function NextOf(nodes: seq<Node>, p: nat): Option<Node> { if p + 1 < |nodes| then Some(nodes[p + 1]) else None }

  lemma NextOfIs(nodes: seq<Node>, p: nat)
    ensures p + 1 < |nodes| ==> NextOf(nodes, p) == Some(nodes[p + 1])
    ensures p + 1 >= |nodes| ==> NextOf(nodes, p) == None
  {}

  lemma Bottom(zsl: List, p: nat, update: seq<Node>, rank: seq<int>)
    requires zsl.Valid() && Path(zsl.nodes, zsl.level, p, update, rank)
    ensures |update| == |rank| == zsl.level && zsl.level > 0 && p < |zsl.nodes| && update[0] in zsl.links
    ensures |zsl.links[update[0]]| > 0 && zsl.links[update[0]][0].forward == NextOf(zsl.nodes, p)
  {
    hide *;
    zsl.ValidParts();
    PathBottom(zsl.nodes, zsl.links, zsl.back, zsl.used, zsl.level, p, update, rank);
    NextOfIs(zsl.nodes, p);
  }

  lemma ForwardOf(zsl: List, r: nat)
    requires zsl.Valid() && r < |zsl.nodes|
    ensures zsl.nodes[r] in zsl.links && |zsl.links[zsl.nodes[r]]| > 0
    ensures zsl.links[zsl.nodes[r]][0].forward == NextOf(zsl.nodes, r)
  {
    hide *;
    zsl.ValidParts();
    AllocatedFacts(zsl.nodes, zsl.links, zsl.back, zsl.used);
    BottomLinkAt(zsl.nodes, zsl.links, zsl.level, r);
    NextOfIs(zsl.nodes, r);
  }

  /** The list's header has no element and its nodes are all different. */
  ghost predicate Indexable(nodes: seq<Node>) { |nodes| > 0 && nodes[0].ele.None? && AllDistinct(nodes) }

  lemma ListIndexable(zsl: List)
    requires zsl.Valid()
    ensures Indexable(zsl.nodes)
  {
    hide *;
    zsl.ValidParts();
    StructuredParts(zsl.nodes, Levels(zsl.links, zsl.nodes), zsl.level);
    HeaderOf(zsl.nodes, zsl.level);
    IsIndexable(zsl.nodes);
  }

  lemma IsIndexable(nodes: seq<Node>)
    requires |nodes| > 0 && nodes[0].ele.None? && AllDistinct(nodes)
    ensures Indexable(nodes)
  {}

  lemma LengthOf(zsl: List)
    requires zsl.Valid()
    ensures |zsl.nodes| == zsl.length + 1
  {
    hide *;
    zsl.ValidParts();
  }

  /** The index, at rest, has fewer entries than a tenth of its buckets. */
  predicate Sparse<K, V>(s: State<K, V>)
  {
    !s.Rehashing() && s.ht0.Size() > 4 && 10 * s.ht0.used < s.ht0.Size() && s.ht0.used < 0x8000_0000
  }

  lemma DictFields(dict: Dict<Ele, Node>)
    requires dict.Valid()
    ensures !dict.S().Rehashing() ==> dict.S().ht1.Size() == 0 && dict.S().ht1.used == 0
  {
    Fields(dict.S(), dict.hash, dict.m);
    hide Stands;
  }

  lemma SizeOf(dict: Dict<Ele, Node>)
    requires dict.Valid()
    ensures dict.S().Used() == |dict.m|
  {
    hide Stands;
    Fields(dict.S(), dict.hash, dict.m);
  }

  /** The element now has this score, in the node the index leads to; the rest is as before. */
  ghost predicate Stored(m: map<Ele, Node>, m': map<Ele, Node>, ele: Ele, score: Score)
  {
    ele in m' && m'[ele].score == score && m' == m[ele := m'[ele]]
  }

  lemma StoredIs(m: map<Ele, Node>, ele: Ele, x: Node)
    ensures Stored(m, m[ele := x], ele, x.score)
  {}

  lemma InScores(m: map<Ele, Node>, ele: Ele)
    ensures ele in ScoresOf(m) <==> ele in m
    ensures ele in m ==> ScoresOf(m)[ele] == m[ele].score
  {}

  lemma DelScores(m: map<Ele, Node>, ele: Ele)
    ensures ScoresOf(m - {ele}) == ScoresOf(m) - {ele}
    ensures ele in ScoresOf(m) <==> ele in m
  {}

  lemma StoredScores(m: map<Ele, Node>, m': map<Ele, Node>, ele: Ele, score: Score)
    requires Stored(m, m', ele, score)
    ensures ScoresOf(m') == ScoresOf(m)[ele := score]
  {}

  lemma AddMeans(plus: Addition, m: map<Ele, Node>, m': map<Ele, Node>, ele: Ele, score: Sum,
                 incr: bool, nx: bool, xx: bool, ok: bool, flag: Flag, newscore: Option<Score>)
    requires score.NaN? ==> !ok && flag == NaNFlag && newscore.None? && m' == m
    requires score.Num? && ele in m ==>
        var sum := if incr then plus(score.score, m[ele].score) else score;
        if nx then ok && flag == Nop && newscore.None? && m' == m
        else if sum.NaN? then !ok && flag == NaNFlag && newscore.None? && m' == m
        else
          && ok && newscore == (if incr then Some(sum.score) else None)
          && (sum.score == m[ele].score ==> flag == Quiet && m' == m)
          && (sum.score != m[ele].score ==> flag == Updated && Stored(m, m', ele, sum.score))
    requires score.Num? && ele !in m ==>
        if xx then ok && flag == Nop && newscore.None? && m' == m
        else ok && flag == Added && newscore == Some(score.score) && Stored(m, m', ele, score.score)
    ensures AddEffect(plus, ScoresOf(m), ScoresOf(m'), ele, score, incr, nx, xx, ok, flag, newscore)
  {
    InScores(m, ele);
    var scores := ScoresOf(m);
    var target := Target(plus, incr, Held(scores, ele), score);
    if target.Num? && Stored(m, m', ele, target.score) { StoredScores(m, m', ele, target.score); }
    if ele in m && target.Num? && target.score == m[ele].score { assert scores[ele := target.score] == scores; }
    hide ScoresOf, Stored;
  }

  // ----- Agreement -----

  lemma Present(nodes: seq<Node>, m: map<Ele, Node>, ele: Ele)
    requires Agree(nodes, m) && Indexable(nodes) && ele in m
    ensures !Absent(nodes, m[ele].score, ele)
  {
    var i :| 0 <= i < |nodes| && nodes[i] == m[ele];
    assert i >= 1 && nodes[i].ele == Some(ele);
  }

  lemma NotListed(nodes: seq<Node>, m: map<Ele, Node>, score: Score, ele: Ele)
    requires Agree(nodes, m) && ele !in m
    ensures Absent(nodes, score, ele)
  {}

  /** Taking a node out of both. */
  lemma AgreeRemoved(nodes: seq<Node>, m: map<Ele, Node>, q: nat)
    requires Agree(nodes, m) && Indexable(nodes) && 1 <= q < |nodes|
    ensures nodes[q].ele.Some? && Agree(Without(nodes, q), m - {nodes[q].ele.value})
  {
    var nodes', e := Without(nodes, q), nodes[q].ele.value;
    var m' := m - {e};
    forall i | 1 <= i < |nodes'|
      ensures nodes'[i].ele.Some? && nodes'[i].ele.value in m' && m'[nodes'[i].ele.value] == nodes'[i]
    {
      var k := if i < q then i else i + 1;
      assert nodes'[i] == nodes[k] && nodes[k] != nodes[q];
    }
    forall f | f in m' ensures m'[f] in nodes' {
      var k :| 0 <= k < |nodes| && nodes[k] == m[f];
      assert k != q;
      assert nodes'[if k < q then k else k - 1] == nodes[k];
    }
  }

  /** Putting a node into both. */
  lemma AgreeInserted(nodes: seq<Node>, m: map<Ele, Node>, p: nat, x: Node, ele: Ele)
    requires Agree(nodes, m) && p < |nodes| && x.ele == Some(ele) && ele !in m
    ensures Agree(With(nodes, p + 1, x), m[ele := x])
  {
    var nodes', m' := With(nodes, p + 1, x), m[ele := x];
    forall i | 1 <= i < |nodes'|
      ensures nodes'[i].ele.Some? && nodes'[i].ele.value in m' && m'[nodes'[i].ele.value] == nodes'[i]
    {
      if i <= p { assert nodes'[i] == nodes[i]; } else if i > p + 1 { assert nodes'[i] == nodes[i - 1]; }
    }
    forall f | f in m' ensures m'[f] in nodes' {
      if f == ele {
        assert nodes'[p + 1] == x;
      } else {
        var k :| 0 <= k < |nodes| && nodes[k] == m[f];
        assert nodes'[if k <= p then k else k + 1] == nodes[k];
      }
    }
  }
}
