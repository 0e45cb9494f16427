/** Iteration over a quicklist with deletion on the way, and the list commands built on it. */
module TList {
  import opened Bytes
  import opened Options
  import opened QuickChain
  import opened Quicklist
  import opened Seqs
  import opened ZipTexts

  /** An entry an iterator has returned: node, index in its ziplist, offset and text. */
  datatype Entry = Entry(n: nat, zi: nat, offset: int, value: Octets)

  /** An iterator at these fields returns entry `g` next, or, backward, entry g - 1. */
  ghost predicate Cursor(zs: seq<seq<Octets>>, order: seq<nat>, current: Option<nat>, k: nat, zi: Option<nat>,
                         offset: int, forward: bool, g: nat)
  {
    && |zs| == |order|
    && if current.None? then zi.None? && g == (if forward then |Flatten(zs)| else 0)
       else
         && k < |order| && current.value == order[k]
         && if forward then
              if zi.None? then 0 <= offset <= |zs[k]| && g == Start(zs, k) + offset
              else zi.value < |zs[k]| && offset == zi.value && g == Start(zs, k) + zi.value + 1
            else
              if zi.None? then -|zs[k]| - 1 <= offset <= -1 && g == Start(zs, k) + |zs[k]| + offset + 1
              else zi.value < |zs[k]| && offset == zi.value - |zs[k]| && g == Start(zs, k) + zi.value
  }

  lemma CursorAt(zs: seq<seq<Octets>>, order: seq<nat>, current: Option<nat>, k: nat, zi: Option<nat>, offset: int,
                 forward: bool, g: nat)
    requires Cursor(zs, order, current, k, zi, offset, forward, g)
    ensures |zs| == |order|
    ensures current.None? ==> zi.None? && g == (if forward then |Flatten(zs)| else 0)
    ensures current.Some? ==> k < |order| && current.value == order[k]
    ensures current.Some? && forward && zi.None? ==> 0 <= offset <= |zs[k]| && g == Start(zs, k) + offset
    ensures current.Some? && forward && zi.Some? ==>
            zi.value < |zs[k]| && offset == zi.value && g == Start(zs, k) + zi.value + 1
    ensures current.Some? && !forward && zi.None? ==>
            -|zs[k]| - 1 <= offset <= -1 && g == Start(zs, k) + |zs[k]| + offset + 1
    ensures current.Some? && !forward && zi.Some? ==>
            zi.value < |zs[k]| && offset == zi.value - |zs[k]| && g == Start(zs, k) + zi.value
  {
    hide Start, Flatten;
  }

  /** An iterator standing at index `j` of node `k`. */
  lemma CursorOn(zs: seq<seq<Octets>>, order: seq<nat>, k: nat, j: nat, forward: bool)
    requires |zs| == |order| && k < |zs| && j < |zs[k]|
    ensures Cursor(zs, order, Some(order[k]), k, Some(j),
                   if forward then j else j - |zs[k]|, forward, Start(zs, k) + j + (if forward then 1 else 0))
  {
    hide Start, Flatten;
  }

  /** An iterator about to look up an offset of node `k`. */
  lemma CursorFresh(zs: seq<seq<Octets>>, order: seq<nat>, k: nat, offset: int, forward: bool)
    requires |zs| == |order| && k < |zs|
    ensures forward && 0 <= offset <= |zs[k]| ==>
            Cursor(zs, order, Some(order[k]), k, None, offset, true, Start(zs, k) + offset)
    ensures !forward && -|zs[k]| - 1 <= offset <= -1 ==>
      Cursor(zs, order, Some(order[k]), k, None, offset, false, Start(zs, k) + |zs[k]| + offset + 1)
  {
    hide Start, Flatten;
  }

  lemma CursorDone(zs: seq<seq<Octets>>, order: seq<nat>, k: nat, offset: int, forward: bool)
    requires |zs| == |order|
    ensures Cursor(zs, order, None, k, None, offset, forward, if forward then |Flatten(zs)| else 0)
  {
    hide Start, Flatten;
  }

  class Iter {
    const ql: Quicklist
    var current: Option<nat>
    var zi: Option<nat>
    var offset: int
    const forward: bool
    ghost var k: nat

    /** The iterator stands before entry `g`. */
    ghost predicate Stands(g: nat)
      reads this, ql`node, ql`order
    {
      Cursor(ql.Z(), ql.order, current, k, zi, offset, forward, g)
    }

    /** quicklistGetIteratorAtIdx for an index that exists. */
    constructor (ql: Quicklist, forward: bool, n: nat, offset: int, ghost k: nat)
      requires ql.Valid() && k < |ql.order| && n == ql.order[k]
      requires if forward then 0 <= offset < |ql.Z()[k]| else -|ql.Z()[k]| <= offset < 0
      ensures this.ql == ql && this.forward == forward
      ensures Stands(Start(ql.Z(), k) + (if forward then offset else |ql.Z()[k]| + offset + 1))
    {
      hide *;
      this.ql, this.forward := ql, forward;
      current, zi, this.offset, this.k := Some(n), None, offset, k;
      new;
      CursorFresh(ql.Z(), ql.order, k, offset, forward);
      StandsIs(Start(ql.Z(), k) + (if forward then offset else |ql.Z()[k]| + offset + 1));
    }

    lemma StandsIs(g: int)
      requires g >= 0 && Cursor(ql.Z(), ql.order, current, k, zi, offset, forward, g)
      ensures Stands(g)
    {
      hide Cursor;
    }

    lemma StandsAt(g: nat)
      requires Stands(g)
      ensures Cursor(ql.Z(), ql.order, current, k, zi, offset, forward, g)
    {
      hide Cursor;
    }

    /** quicklistNext, first part: the next entry of the current node, if it has one. */
    method NextInNode(ghost g: nat) returns (e: Option<Entry>)
      requires ql.Valid() && Stands(g) && current.Some?
      modifies this`zi, this`offset
      ensures k < |ql.order| == |ql.Z()| && current == Some(ql.order[k])
      ensures e.None? ==> zi.None? && g == Start(ql.Z(), k) + (if forward then |ql.Z()[k]| else 0)
      ensures e.Some? && forward ==> g < |ql.Contents()| && e.value.value == ql.Contents()[g] && Stands(g + 1)
      ensures e.Some? && !forward ==> 0 < g <= |ql.Contents()| && e.value.value == ql.Contents()[g - 1] && Stands(g - 1)
      ensures e.Some? ==> current == Some(e.value.n) && zi == Some(e.value.zi) && offset == e.value.offset
    {
      hide *;
      StandsAt(g);
      ghost var zs := ql.Z();
      CursorAt(zs, ql.order, current, k, zi, offset, forward, g);
      ql.ValidParts();
      ql.At(k);
      var zl := ql.node[current.value].zl;
      if zi.None? {
        ZlIndexIs(zl, offset);
        zi := ZlIndex(zl, offset);
      } else if forward {
        zi, offset := if zi.value + 1 < |zl| then Some(zi.value + 1) else None, offset + 1;
      } else {
        zi, offset := if zi.value > 0 then Some(zi.value - 1) else None, offset - 1;
      }
      if zi.None? { return None; }
      e := Some(Entry(current.value, zi.value, offset, zl[zi.value]));
      EntryAt(zs, k, zi.value);
      CursorOn(zs, ql.order, k, zi.value, forward);
      StandsIs(Start(zs, k) + zi.value + (if forward then 1 else 0));
    }

    /** quicklistNext: the next entry, looked for in the next node when the current one has no
        more. */
    method Next(ghost g: nat) returns (e: Option<Entry>)
      requires ql.Valid() && Stands(g)
      modifies this
      ensures forward ==>
              (e.Some? <==> g < |ql.Contents()|) && (e.Some? ==> e.value.value == ql.Contents()[g] && Stands(g + 1))
      ensures !forward ==>
              (e.Some? <==> 0 < g <= |ql.Contents()|)
                && (e.Some? ==> e.value.value == ql.Contents()[g - 1] && Stands(g - 1))
      ensures e.Some? ==> current == Some(e.value.n) && zi == Some(e.value.zi) && offset == e.value.offset
      decreases if current.None? then 0 else if forward then |ql.order| - k else k + 1
    {
      hide *;
      StandsAt(g);
      CursorAt(ql.Z(), ql.order, current, k, zi, offset, forward, g);
      ql.ValidParts();
      if current.None? { return None; }
      e := NextInNode(g);
      if e.Some? { return; }
      Jump(g);
      e := Next(g);
    }

    /** The step to the neighbouring node. */
    method Jump(ghost g: nat)
      requires ql.Valid() && k < |ql.order| == |ql.Z()| && current == Some(ql.order[k]) && zi.None?
      requires g == Start(ql.Z(), k) + (if forward then |ql.Z()[k]| else 0)
      modifies this`current, this`offset, this`k
      ensures Stands(g) && (current.Some? ==> if forward then k == old(k) + 1 else k == old(k) - 1)
    {
      hide *;
      ghost var zs := ql.Z();
      ql.ValidParts();
      ql.At(k);
      Around(ql.order, k);
      StartStep(zs, k);
      StartEnds(zs);
      if forward {
        current, offset := ql.next[current.value], 0;
      } else {
        current, offset := ql.prev[current.value], -1;
      }
      if current.Some? {
        k := if forward then k + 1 else k - 1;
        CursorFresh(zs, ql.order, k, offset, forward);
        if !forward { StartStep(zs, k); }
      } else {
        CursorDone(zs, ql.order, k, offset, forward);
      }
      StandsIs(g);
    }

    /** quicklistDelEntry on the entry just returned. */
    method DelEntry(entry: Entry, ghost g: nat)
      requires ql.Valid() && Stands(g) && current == Some(entry.n) && zi == Some(entry.zi)
      modifies this, ql
      ensures ql.Valid() && ql.Unsized() <= old(ql.Unsized())
      ensures forward ==>
              0 < g <= |old(ql.Contents())| && ql.Contents() == Without(old(ql.Contents()), g - 1) && Stands(g - 1)
      ensures !forward ==> g < |old(ql.Contents())| && ql.Contents() == Without(old(ql.Contents()), g) && Stands(g)
    {
      hide *;
      StandsAt(g);
      ghost var zs, order := ql.Z(), ql.order;
      CursorAt(zs, order, current, k, zi, offset, forward, g);
      ql.ValidParts();
      ql.At(k);
      Around(order, k);
      EntryAt(zs, k, entry.zi);
      var pv, nx := ql.prev[entry.n], ql.next[entry.n];
      var gone := ql.DelIndex(entry.n, entry.zi, k);
      ql.ValidParts();
      zi := None;
      GoneStart(zs, order, k, entry.zi);
      if gone {
        StartEnds(ql.Z());
        if forward {
          current, offset := nx, 0;
          if current.Some? {
            CursorFresh(ql.Z(), ql.order, k, offset, true);
          } else {
            CursorDone(ql.Z(), ql.order, k, offset, true);
          }
        } else {
          current, offset := pv, -1;
          if current.Some? {
            k := k - 1;
            StartStep(ql.Z(), k);
            CursorFresh(ql.Z(), ql.order, k, offset, false);
          } else {
            CursorDone(ql.Z(), ql.order, k, offset, false);
          }
        }
      } else {
        CursorFresh(ql.Z(), ql.order, k, offset, forward);
      }
      StandsIs(if forward then g - 1 else g);
    }
  }

  /** What is before a node when it is gone, or has lost an entry. */
  lemma GoneStart(zs: seq<seq<Octets>>, order: seq<nat>, k: nat, p: nat)
    requires k < |zs| == |order| && p < |zs[k]|
    ensures forall i :: 0 <= i <= k ==> Start(Without(zs, k), i) == Start(zs, i)
    ensures forall i :: 0 <= i <= k ==> Start(zs[k := Without(zs[k], p)], i) == Start(zs, i)
    ensures k + 1 < |order| ==> Without(order, k)[k] == order[k + 1]
    ensures k > 0 ==> Without(order, k)[k - 1] == order[k - 1]
    ensures |Without(zs, k)| == |zs| - 1 && |zs[k := Without(zs[k], p)][k]| == |zs[k]| - 1
  {
    forall i | 0 <= i <= k
        ensures Start(Without(zs, k), i) == Start(zs, i) && Start(zs[k := Without(zs[k], p)], i) == Start(zs, i)
    {
      assert Without(zs, k)[..i] == zs[..i] && zs[k := Without(zs[k], p)][..i] == zs[..i];
    }
  }

  // ----- What the commands promise -----

  /** `s` without the first `n` occurrences of `v`. */
  function RemoveFirst(s: seq<Octets>, v: Octets, n: nat): seq<Octets>
  {
    if s == [] || n == 0 then s
    else if s[0] == v then RemoveFirst(s[1..], v, n - 1)
    else [s[0]] + RemoveFirst(s[1..], v, n)
  }

  /** `s` without the last `n` occurrences of `v`. */
  function RemoveLast(s: seq<Octets>, v: Octets, n: nat): seq<Octets>
  {
    if s == [] || n == 0 then s
    else if s[|s| - 1] == v then RemoveLast(s[..|s| - 1], v, n - 1)
    else RemoveLast(s[..|s| - 1], v, n) + [s[|s| - 1]]
  }

  function Reverse(s: seq<Octets>): (r: seq<Octets>)
    ensures |r| == |s|
  {
    if s == [] then [] else Reverse(s[1..]) + [s[0]]
  }

  function Occurrences(s: seq<Octets>, v: Octets): nat
  {
    if s == [] then 0 else (if s[0] == v then 1 else 0) + Occurrences(s[1..], v)
  }

  /** Removing from the end is removing from the front of the list turned around. */
  lemma {:induction false} RemoveLastReverses(s: seq<Octets>, v: Octets, n: nat)
    ensures RemoveLast(s, v, n) == Reverse(RemoveFirst(Reverse(s), v, n))
  {
    ReverseTwice(s);
    if s != [] && n > 0 {
      var init, x := s[..|s| - 1], s[|s| - 1];
      assert s == init + [x];
      ReverseSnoc(init, x);
      assert Reverse(s)[0] == x && Reverse(s)[1..] == Reverse(init);
      if x == v {
        RemoveLastReverses(init, v, n - 1);
      } else {
        RemoveLastReverses(init, v, n);
        var r := RemoveFirst(Reverse(init), v, n);
        assert ([x] + r)[1..] == r;
      }
    }
  }

  lemma {:induction false} ReverseSnoc(s: seq<Octets>, x: Octets)
    ensures Reverse(s + [x]) == [x] + Reverse(s)
  {
    if s == [] {
      assert s + [x] == [x] && Reverse([]) == [];
    } else {
      assert (s + [x])[1..] == s[1..] + [x];
      ReverseSnoc(s[1..], x);
    }
  }

  lemma {:induction false} ReverseTwice(s: seq<Octets>)
    ensures Reverse(Reverse(s)) == s
  {
    if s != [] {
      ReverseTwice(s[1..]);
      ReverseSnoc(Reverse(s[1..]), s[0]);
    }
  }

  /** As many are removed as were asked for or are there; the other elements stay. */
  lemma {:induction false} RemoveFirstCounts(s: seq<Octets>, v: Octets, n: nat, w: Octets)
    ensures Occurrences(RemoveFirst(s, v, n), w)
            == if w == v then (if n <= Occurrences(s, v) then Occurrences(s, v) - n else 0) else Occurrences(s, w)
  {
    if s != [] && n > 0 {
      if s[0] == v {
        RemoveFirstCounts(s[1..], v, n - 1, w);
      } else {
        RemoveFirstCounts(s[1..], v, n, w);
        var r := RemoveFirst(s[1..], v, n);
        assert ([s[0]] + r)[1..] == r;
      }
    }
  }

  /** What an LREM with this count leaves: 0 removes every occurrence, a negative count works
      from the end. */
  function Rem(s: seq<Octets>, v: Octets, count: int): seq<Octets>
  {
    if count < 0 then RemoveLast(s, v, -count) else RemoveFirst(s, v, if count == 0 then |s| else count)
  }

  /** The slice an LTRIM with these bounds leaves; negative bounds count from the end. */
  function Slice(s: seq<Octets>, start: int, end: int): seq<Octets>
  {
    var lo := if start >= 0 then start else if |s| + start >= 0 then |s| + start else 0;
    var hi := if end < 0 then |s| + end else if end < |s| then end else |s| - 1;
    if lo <= hi && lo < |s| then s[lo..hi + 1] else []
  }

  /** Where the first occurrence is; |s| if there is none. */
  function IndexOf(s: seq<Octets>, v: Octets): (i: nat)
    ensures i <= |s| && v !in s[..i] && (i < |s| ==> s[i] == v)
  {
    if s == [] then 0 else if s[0] == v then 0 else
      assert s[..1 + IndexOf(s[1..], v)] == [s[0]] + s[1..][..IndexOf(s[1..], v)];
      1 + IndexOf(s[1..], v)
  }

  lemma RemoveNone(s: seq<Octets>, v: Octets)
    ensures RemoveFirst(s, v, 0) == s && RemoveLast(s, v, 0) == s
    ensures forall n: nat :: RemoveFirst([], v, n) == [] && RemoveLast([], v, n) == []
  {}

  lemma RemoveFirstStep(s: seq<Octets>, v: Octets, n: nat, g: nat)
    requires g < |s| && n > 0
    ensures RemoveFirst(s[g..], v, n)
            == if s[g] == v then RemoveFirst(s[g + 1..], v, n - 1) else [s[g]] + RemoveFirst(s[g + 1..], v, n)
  {
    assert s[g..][1..] == s[g + 1..];
  }

  lemma RemoveLastStep(s: seq<Octets>, v: Octets, n: nat, g: nat)
    requires 0 < g <= |s| && n > 0
    ensures RemoveLast(s[..g], v, n)
            == if s[g - 1] == v then RemoveLast(s[..g - 1], v, n - 1) else RemoveLast(s[..g - 1], v, n) + [s[g - 1]]
  {
    assert s[..g][..g - 1] == s[..g - 1];
  }

  // ----- The commands -----

  /** RcLTrim; `gone` if the key is deleted with its last element. */
  method LTrim(ql: Quicklist, start0: int, end0: int) returns (gone: bool)
    requires ql.Valid()
    modifies ql
    ensures ql.Valid() && ql.Contents() == Slice(old(ql.Contents()), start0, end0) && (gone <==> ql.Contents() == [])
    ensures ql.Unsized() <= old(ql.Unsized())
  {
    hide *;
    ql.ValidParts();
    var start, end, llen := start0, end0, ql.count;
    if start < 0 { start := llen + start; }
    if end < 0 { end := llen + end; }
    if start < 0 { start := 0; }
    var ltrim, rtrim;
    if start > end || start >= llen {
      ltrim, rtrim := llen, 0;
    } else {
      if end >= llen { end := llen - 1; }
      ltrim, rtrim := start, llen - end - 1;
    }
    TrimIs(ql.Contents(), start0, end0, ltrim, rtrim);
    NeverOverruns(ql.Z(), 0, ltrim);
    var _ := ql.DelRange(0, ltrim);
    NeverOverruns(ql.Z(), -rtrim, rtrim);
    var _ := ql.DelRange(-rtrim, rtrim);
    ql.ValidParts();
    gone := ql.count == 0;
  }

  /** Cutting off both ends leaves the slice. */
  lemma TrimIs(s: seq<Octets>, start: int, end: int, ltrim: int, rtrim: int)
    requires var lo := if start >= 0 then start else if |s| + start >= 0 then |s| + start else 0;
             var hi := if end < 0 then |s| + end else end;
             if lo > hi || lo >= |s| then ltrim == |s| && rtrim == 0
             else ltrim == lo && rtrim == |s| - (if hi >= |s| then |s| - 1 else hi) - 1
    ensures 0 <= ltrim <= |s| && 0 <= rtrim <= |s| - ltrim
    ensures var t := if ltrim > 0 then ZlDeleteRange(s, 0, ltrim) else s;
            (if rtrim > 0 then ZlDeleteRange(t, -rtrim, rtrim) else t) == Slice(s, start, end)
  {
    hide ZlDeleteRange;
    CutEnds(s, ltrim, rtrim);
  }

  lemma CutEnds(s: seq<Octets>, l: nat, r: nat)
    requires l + r <= |s|
    ensures var t := if l > 0 then ZlDeleteRange(s, 0, l) else s;
            (if r > 0 then ZlDeleteRange(t, 0 - r, r) else t) == s[l..|s| - r]
  {
    var t := if l > 0 then ZlDeleteRange(s, 0, l) else s;
    assert t == s[l..];
    assert t[..|t| - r] == s[l..|s| - r];
  }

  /** RcLInsert: next to the first occurrence of the pivot, if there is one. Nothing stops it in a
      list whose nodes all have their sizes, as the list commands make and leave them. */
  method LInsert(ql: Quicklist, after: bool, pivot: Octets, val: Octets) returns (ok: bool)
    requires ql.Valid() && |ql.Contents()| < UINT_MAX
    modifies ql
    ensures old(ql.Sized()) ==> ok
    ensures ok ==> ql.Valid() && ql.Unsized() <= old(ql.Unsized())
    ensures ok ==> var s := old(ql.Contents());
                   var i := IndexOf(s, pivot);
                   ql.Contents() == if i < |s| then With(s, if after then i + 1 else i, val) else s
  {
    hide *;
    ghost var s, k, g := ql.Contents(), 0, 0;
    ql.ValidParts();
    NotYet(s, pivot);
    var n, offset;
    n, offset, k := ql.Index(0);
    ok := true;
    if n.None? { return; }
    ql.SizedIs();
    var iter := new Iter(ql, true, n.value, offset, k);
    while true
      invariant ok && ql.Unsized() == old(ql.Unsized())
      invariant ql.Valid() && ql.Contents() == s && iter.ql == ql && iter.forward && iter.Stands(g)
      invariant g <= |s| && IndexOf(s, pivot) >= g && fresh(iter)
      decreases |s| - g
    {
      var e := iter.Next(g);
      FirstAt(s, pivot, g);
      if e.None? { break; }
      if e.value.value == pivot {
        iter.StandsAt(g + 1);
        CursorAt(ql.Z(), ql.order, iter.current, iter.k, iter.zi, iter.offset, true, g + 1);
        ql.ValidParts();
        NodeBound(ql.Z(), iter.k, e.value.zi);
        PlaceIs(ql.Z(), iter.k, e.value.zi, val, after);
        ok := ql.Insert(Some(e.value.n), e.value.offset, val, after, iter.k);
        break;
      }
      g := g + 1;
    }
  }

  lemma PlaceIs(zs: seq<seq<Octets>>, k: nat, zi: nat, v: Octets, after: bool)
    requires k < |zs| && zi < |zs[k]| < UINT_MAX
    ensures AtPlace(|zs[k]|, zi, after) && Start(zs, k) + zi < |Flatten(zs)|
    ensures InsertedAt(zs, k, zi, v, after) == With(Flatten(zs), Start(zs, k) + zi + (if after then 1 else 0), v)
  {
    hide Flatten, Start;
    StartStep(zs, k);
    InsertedIs(zs, k, zi, v, after);
  }

  lemma NotYet(s: seq<Octets>, v: Octets)
    ensures 0 <= IndexOf(s, v) <= |s|
  {}

  lemma FirstAt(s: seq<Octets>, v: Octets, g: nat)
    requires g <= IndexOf(s, v)
    ensures IndexOf(s, v) <= |s| && (g < |s| && s[g] == v ==> IndexOf(s, v) == g)
    ensures g < |s| && s[g] != v ==> IndexOf(s, v) > g
  {
    var i := IndexOf(s, v);
    assert forall j :: 0 <= j < i ==> s[..i][j] == s[j] != v;
  }

  lemma NodeBound(zs: seq<seq<Octets>>, k: nat, p: nat)
    requires k < |zs| && p < |zs[k]|
    ensures |zs[k]| <= |Flatten(zs)|
  {
    hide Flatten;
    FlattenAt(zs, k);
  }

  /** RcLRem; `gone` if the key is deleted with its last element. */
  method LRem(ql: Quicklist, count0: int, val: Octets) returns (gone: bool)
    requires ql.Valid()
    modifies ql
    ensures ql.Valid() && ql.Contents() == Rem(old(ql.Contents()), val, count0) && (gone <==> ql.Contents() == [])
    ensures ql.Unsized() <= old(ql.Unsized())
  {
    hide *;
    RemIs(ql.Contents(), val, count0);
    ql.ValidParts();
    if count0 < 0 {
      RemBackward(ql, -count0, val);
    } else {
      RemForward(ql, count0, val);
    }
    ql.ValidParts();
    gone := ql.count == 0;
  }

  lemma RemIs(s: seq<Octets>, v: Octets, count: int)
    ensures count < 0 ==> Rem(s, v, count) == RemoveLast(s, v, -count)
    ensures count >= 0 ==> Rem(s, v, count) == RemoveFirst(s, v, if count == 0 then |s| else count)
  {}

  /** Entries before position `g` are settled; `left` occurrences may still go. */
  ghost predicate HeadDone(t: seq<Octets>, g: nat, v: Octets, left: nat, goal: seq<Octets>)
  {
    g <= |t| && t[..g] + RemoveFirst(t[g..], v, left) == goal
  }

  lemma HeadStart(s: seq<Octets>, v: Octets, n: nat)
    ensures HeadDone(s, 0, v, n, RemoveFirst(s, v, n))
    ensures s == [] ==> RemoveFirst(s, v, n) == s
  {
    assert s[..0] == [] && s[0..] == s;
  }

  lemma HeadStep(t: seq<Octets>, g: nat, v: Octets, left: nat, goal: seq<Octets>)
    requires HeadDone(t, g, v, left, goal) && g < |t| && left > 0
    ensures t[g] != v ==> HeadDone(t, g + 1, v, left, goal)
    ensures t[g] == v ==> HeadDone(Without(t, g), g, v, left - 1, goal)
  {
    RemoveFirstStep(t, v, left, g);
    hide RemoveFirst;
    if t[g] == v {
      DropOne(t, g);
    } else {
      KeepOne(t, g, RemoveFirst(t[g + 1..], v, left));
    }
  }

  lemma HeadEnd(t: seq<Octets>, g: nat, v: Octets, left: nat, goal: seq<Octets>)
    requires HeadDone(t, g, v, left, goal)
    ensures g <= |t| && (left == 0 || g == |t| ==> t == goal)
  {
    RemoveNone(t[g..], v);
    hide RemoveFirst;
    if g == |t| { assert t[g..] == []; }
    assert t[..g] + t[g..] == t;
  }

  /** The loop from the head. */
  method RemForward(ql: Quicklist, count: nat, val: Octets)
    requires ql.Valid()
    modifies ql
    ensures ql.Valid() && ql.Unsized() <= old(ql.Unsized())
    ensures ql.Contents() == RemoveFirst(old(ql.Contents()), val, if count == 0 then |old(ql.Contents())| else count)
  {
    hide *;
    ghost var k, g: nat, left: nat := 0, 0, if count == 0 then |ql.Contents()| else count;
    ghost var goal := RemoveFirst(ql.Contents(), val, left);
    ql.ValidParts();
    HeadStart(ql.Contents(), val, left);
    var n, offset;
    n, offset, k := ql.Index(0);
    if n.None? { return; }
    var li := new Iter(ql, true, n.value, offset, k);
    var removed := 0;
    while true
      invariant ql.Valid() && li.ql == ql && li.forward && li.Stands(g) && fresh(li)
      invariant ql.Unsized() <= old(ql.Unsized())
      invariant HeadDone(ql.Contents(), g, val, left, goal)
      invariant (left > 0 || g == |ql.Contents()|)
                && if count == 0 then left >= |ql.Contents()| - g else left == count - removed
      decreases |ql.Contents()| - g
    {
      HeadEnd(ql.Contents(), g, val, left, goal);
      var e := li.Next(g);
      if e.None? { break; }
      HeadStep(ql.Contents(), g, val, left, goal);
      if e.value.value == val {
        li.DelEntry(e.value, g + 1);
        removed := removed + 1;
        left := left - 1;
        HeadEnd(ql.Contents(), g, val, left, goal);
        if count != 0 && removed == count { break; }
      } else {
        g := g + 1;
      }
    }
  }

  lemma KeepOne(t: seq<Octets>, g: nat, r: seq<Octets>)
    requires g < |t|
    ensures t[..g + 1] + r == t[..g] + ([t[g]] + r)
  {}

  lemma DropOne(t: seq<Octets>, g: nat)
    requires g < |t|
    ensures Without(t, g)[..g] == t[..g] && Without(t, g)[g..] == t[g + 1..]
  {}

  /** Entries from position `g` on are settled. */
  ghost predicate TailDone(t: seq<Octets>, g: nat, v: Octets, left: nat, goal: seq<Octets>)
  {
    g <= |t| && RemoveLast(t[..g], v, left) + t[g..] == goal
  }

  lemma TailStart(s: seq<Octets>, v: Octets, n: nat)
    ensures TailDone(s, |s|, v, n, RemoveLast(s, v, n))
    ensures s == [] ==> RemoveLast(s, v, n) == s
  {
    assert s[..|s|] == s && s[|s|..] == [];
  }

  lemma TailStep(t: seq<Octets>, g: nat, v: Octets, left: nat, goal: seq<Octets>)
    requires TailDone(t, g, v, left, goal) && g > 0 && left > 0
    ensures g <= |t|
    ensures t[g - 1] != v ==> TailDone(t, g - 1, v, left, goal)
    ensures t[g - 1] == v ==> TailDone(Without(t, g - 1), g - 1, v, left - 1, goal)
  {
    RemoveLastStep(t, v, left, g);
    hide RemoveLast;
    if t[g - 1] == v {
      DropOne(t, g - 1);
    } else {
      KeepLast(t, g - 1, RemoveLast(t[..g - 1], v, left));
    }
  }

  lemma TailEnd(t: seq<Octets>, g: nat, v: Octets, left: nat, goal: seq<Octets>)
    requires TailDone(t, g, v, left, goal)
    ensures g <= |t| && (left == 0 || g == 0 ==> t == goal)
  {
    RemoveNone(t[..g], v);
    hide RemoveLast;
    if g == 0 { assert t[..g] == []; }
    assert t[..g] + t[g..] == t;
  }

  /** The loop from the tail. */
  method RemBackward(ql: Quicklist, count: nat, val: Octets)
    requires ql.Valid() && count > 0
    modifies ql
    ensures ql.Valid() && ql.Contents() == RemoveLast(old(ql.Contents()), val, count)
    ensures ql.Unsized() <= old(ql.Unsized())
  {
    hide *;
    ghost var k, g: nat, left: nat := 0, |ql.Contents()|, count;
    ghost var goal := RemoveLast(ql.Contents(), val, left);
    ql.ValidParts();
    TailStart(ql.Contents(), val, left);
    var n, offset;
    n, offset, k := ql.Index(-1);
    if n.None? { return; }
    var li := new Iter(ql, false, n.value, offset, k);
    var removed := 0;
    while true
      invariant ql.Valid() && li.ql == ql && !li.forward && li.Stands(g) && fresh(li)
      invariant ql.Unsized() <= old(ql.Unsized())
      invariant TailDone(ql.Contents(), g, val, left, goal)
      invariant left > 0 && left == count - removed
      decreases g
    {
      TailEnd(ql.Contents(), g, val, left, goal);
      var e := li.Next(g);
      if e.None? { break; }
      TailStep(ql.Contents(), g, val, left, goal);
      g := g - 1;
      if e.value.value == val {
        li.DelEntry(e.value, g);
        removed := removed + 1;
        left := left - 1;
        TailEnd(ql.Contents(), g, val, left, goal);
        if count != 0 && removed == count { break; }
      }
    }
  }

  lemma KeepLast(t: seq<Octets>, g: nat, r: seq<Octets>)
    requires g < |t|
    ensures r + [t[g]] + t[g + 1..] == r + t[g..]
  {}
}
