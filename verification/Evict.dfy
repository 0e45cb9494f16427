/** The eviction pool of evict.c: sixteen slots sorted by idle time, whose key buffers are
    handed on when entries move. */
module Evict {
  import opened Bytes
  import opened Options
  import opened Seqs

  const EVPOOL_SIZE: nat := 16
  const EVPOOL_CACHED_SDS_SIZE: nat := 255

  /** A slot: `key` and `cached` are addresses of strings. */
  datatype Slot = Slot(idle: nat, key: Option<nat>, cached: nat)

  /** A candidate for eviction. */
  datatype Candidate = Candidate(idle: nat, key: Octets)

  type Strings = map<nat, Octets>

  /** The first `n` slots are in use, with increasing idle times. */
  ghost predicate Filled(s: seq<Slot>, n: nat)
  {
    && |s| == EVPOOL_SIZE && n <= EVPOOL_SIZE
    && (forall i :: 0 <= i < |s| ==> (s[i].key.Some? <==> i < n))
    && forall i, j :: 0 <= i < j < n ==> s[i].idle <= s[j].idle
  }

  /** Every slot has a buffer of its own; a key is in its slot's buffer, which is large enough for
      it, or in memory that no buffer and no other key is in. */
  ghost predicate Separate(s: seq<Slot>, mem: Strings, used: nat)
  {
    && (forall i :: 0 <= i < |s| ==> s[i].cached < used)
    && (forall i, j :: 0 <= i < |s| && 0 <= j < |s| && i != j ==> s[i].cached != s[j].cached)
    && (forall i :: 0 <= i < |s| && s[i].key.Some? ==> s[i].key.value in mem && s[i].key.value < used)
    && (forall i, j :: 0 <= i < |s| && 0 <= j < |s| && i != j && s[i].key.Some? ==>
          s[i].key.value != s[j].cached && s[i].key != s[j].key)
    && (forall i :: 0 <= i < |s| ==> FitsBuffer(s[i], mem))
  }

  /** A key that is in its slot's buffer is no longer than that. */
  predicate FitsBuffer(x: Slot, mem: Strings)
  {
    x.key == Some(x.cached) && x.cached in mem ==> |mem[x.cached]| <= EVPOOL_CACHED_SDS_SIZE
  }

  ghost function Buffers(s: seq<Slot>): multiset<nat> { multiset(seq(|s|, i requires 0 <= i < |s| => s[i].cached)) }

  function TextAt(s: seq<Slot>, mem: Strings, i: nat): Octets
    requires i < |s|
  {
    if s[i].key.Some? && s[i].key.value in mem then mem[s[i].key.value] else []
  }

  /** The candidates in the pool, from worst to best. */
  ghost function View(s: seq<Slot>, mem: Strings, n: nat): (v: seq<Candidate>)
    requires n <= |s|
    ensures |v| == n && forall i :: 0 <= i < n ==> v[i] == Candidate(s[i].idle, TextAt(s, mem, i))
  {
    seq(n, i requires 0 <= i < n => Candidate(s[i].idle, TextAt(s, mem, i)))
  }

  // ----- Shifting -----

  /** Slots from `k` on move one to the right; slot `k` gets the buffer of the last one. */
  function ShiftRight(s: seq<Slot>, k: nat): (r: seq<Slot>)
    requires |s| == EVPOOL_SIZE && k < EVPOOL_SIZE
    ensures |r| == |s|
    ensures forall i {:trigger r[i]} :: 0 <= i < |r| ==>
            r[i] == if i < k then s[i] else if i == k then s[k].(cached := s[EVPOOL_SIZE - 1].cached) else s[i - 1]
  {
    seq(|s|, i requires 0 <= i < |s| => if i < k then s[i]
        else if i == k then s[k].(cached := s[EVPOOL_SIZE - 1].cached) else s[i - 1])
  }

  /** Slots up to `k` move one to the left, over the first; slot `k` gets its buffer. */
  function ShiftLeft(s: seq<Slot>, k: nat): (r: seq<Slot>)
    requires |s| == EVPOOL_SIZE && k < EVPOOL_SIZE
    ensures |r| == |s|
    ensures forall i {:trigger r[i]} :: 0 <= i < |r| ==>
            r[i] == if i < k then s[i + 1] else if i == k then s[k].(cached := s[0].cached) else s[i]
  {
    seq(|s|, i requires 0 <= i < |s| => if i < k then s[i + 1]
        else if i == k then s[k].(cached := s[0].cached) else s[i])
  }

  /** A slot whose buffer can be written: the other slots are separate from each other and from
      it. */
  ghost predicate Ready(s: seq<Slot>, mem: Strings, used: nat, k: nat)
    requires k < |s|
  {
    && (forall i :: 0 <= i < |s| ==> s[i].cached < used)
    && (forall i, j :: 0 <= i < |s| && 0 <= j < |s| && i != j ==> s[i].cached != s[j].cached)
    && (forall i :: 0 <= i < |s| && i != k && s[i].key.Some? ==>
        s[i].key.value in mem && s[i].key.value < used && s[i].key.value != s[k].cached)
    && (forall i, j :: 0 <= i < |s| && 0 <= j < |s| && i != j && i != k && j != k && s[i].key.Some? ==>
          s[i].key.value != s[j].cached && s[i].key != s[j].key)
    && (forall i :: 0 <= i < |s| && i != k ==> FitsBuffer(s[i], mem))
  }

  lemma ReadyHere(s: seq<Slot>, mem: Strings, used: nat, k: nat)
    requires Separate(s, mem, used) && k < |s|
    ensures Ready(s, mem, used, k)
  {}

  /** Slots that are those of `s` in another order, but for the key in slot `k`. */
  lemma ReadyMoved(s: seq<Slot>, r: seq<Slot>, ix: seq<nat>, mem: Strings, used: nat, k: nat)
    requires Separate(s, mem, used) && |s| == |r| == |ix| && k < |r|
    requires forall i :: 0 <= i < |ix| ==> ix[i] < |s|
    requires forall i, j :: 0 <= i < |ix| && 0 <= j < |ix| && i != j ==> ix[i] != ix[j]
    requires forall i :: 0 <= i < |r| ==> r[i].cached == s[ix[i]].cached && (i != k ==> r[i].key == s[ix[i]].key)
    ensures Ready(r, mem, used, k)
  {
    forall i, j | 0 <= i < |r| && 0 <= j < |r| && i != j
      ensures r[i].cached != r[j].cached && (i != k && r[i].key.Some? ==> r[i].key.value != r[j].cached)
      ensures i != k && j != k && r[i].key.Some? ==> r[i].key != r[j].key
    {
      assert ix[i] != ix[j];
    }
  }

  lemma ReadyRight(s: seq<Slot>, mem: Strings, used: nat, k: nat)
    requires Separate(s, mem, used) && |s| == EVPOOL_SIZE && k < EVPOOL_SIZE
    ensures Ready(ShiftRight(s, k), mem, used, k)
  {
    hide Separate, Ready, ShiftRight;
    var r := ShiftRight(s, k);
    var ix := seq(EVPOOL_SIZE,
                  i requires 0 <= i < EVPOOL_SIZE => if i < k then i else if i == k then EVPOOL_SIZE - 1 else i - 1);
    ReadyMoved(s, r, ix, mem, used, k);
  }

  lemma ReadyLeft(s: seq<Slot>, mem: Strings, used: nat, k: nat)
    requires Separate(s, mem, used) && |s| == EVPOOL_SIZE && k < EVPOOL_SIZE
    ensures Ready(ShiftLeft(s, k), mem, used, k)
    ensures s[0].key.Some? && s[0].key.value != s[0].cached ==> Ready(ShiftLeft(s, k), mem - {s[0].key.value}, used, k)
  {
    var r := ShiftLeft(s, k);
    var ix := seq(EVPOOL_SIZE, i requires 0 <= i < EVPOOL_SIZE => if i < k then i + 1 else if i == k then 0 else i);
    FirstKey(s, mem, used);
    hide Separate, Ready, ShiftLeft;
    ReadyMoved(s, r, ix, mem, used, k);
    if s[0].key.Some? && s[0].key.value != s[0].cached {
      forall i | 0 <= i < |r| && i != k && r[i].key.Some? ensures r[i].key != s[0].key {
        assert ix[i] != 0;
      }
      ReadyFreed(r, mem, used, k, s[0].key.value);
    }
  }

  lemma FirstKey(s: seq<Slot>, mem: Strings, used: nat)
    requires Separate(s, mem, used) && |s| > 0
    ensures forall i :: 0 < i < |s| && s[0].key.Some? ==> s[i].key != s[0].key
  {}

  /** Memory no slot's key is in can be freed. */
  lemma ReadyFreed(r: seq<Slot>, mem: Strings, used: nat, k: nat, a: nat)
    requires k < |r| && Ready(r, mem, used, k)
             && forall i :: 0 <= i < |r| && i != k && r[i].key.Some? ==> r[i].key.value != a
    ensures Ready(r, mem - {a}, used, k)
  {}

  /** Writing a key into slot `k`: into its buffer, or at an address not in use. */
  lemma Written(s: seq<Slot>, mem: Strings, used: nat, k: nat, text: Octets, idle: nat)
    requires k < |s| && Ready(s, mem, used, k)
    ensures var c := s[k].cached;
            && (|text| <= EVPOOL_CACHED_SDS_SIZE ==> Separate(s[k := Slot(idle, Some(c), c)], mem[c := text], used))
            && Separate(s[k := Slot(idle, Some(used), c)], mem[used := text], used + 1)
  {}

  /** What is read of the other slots does not change. */
  lemma WrittenText(s: seq<Slot>, mem: Strings, used: nat, k: nat, text: Octets, idle: nat, i: nat)
    requires k < |s| && Ready(s, mem, used, k) && i < |s| && i != k
    ensures var c := s[k].cached;
            && TextAt(s[k := Slot(idle, Some(c), c)], mem[c := text], i) == TextAt(s, mem, i)
            && TextAt(s[k := Slot(idle, Some(used), c)], mem[used := text], i) == TextAt(s, mem, i)
  {}

  lemma BuffersRight(s: seq<Slot>, k: nat)
    requires |s| == EVPOOL_SIZE && k < EVPOOL_SIZE
    ensures Buffers(ShiftRight(s, k)) == Buffers(s)
  {
    var n := EVPOOL_SIZE - 1;
    var a, b := Cached(s), Cached(ShiftRight(s, k));
    assert a == a[..k] + a[k..n] + [a[n]];
    assert b == a[..k] + [a[n]] + a[k..n];
  }

  lemma BuffersLeft(s: seq<Slot>, k: nat)
    requires |s| == EVPOOL_SIZE && k < EVPOOL_SIZE
    ensures Buffers(ShiftLeft(s, k)) == Buffers(s)
  {
    var a, b := Cached(s), Cached(ShiftLeft(s, k));
    assert a == [a[0]] + a[1..k + 1] + a[k + 1..];
    assert b == a[1..k + 1] + [a[0]] + a[k + 1..];
  }

  ghost function Cached(s: seq<Slot>): (a: seq<nat>)
    ensures |a| == |s| && forall i :: 0 <= i < |s| ==> a[i] == s[i].cached
    ensures Buffers(s) == multiset(a)
  {
    seq(|s|, i requires 0 <= i < |s| => s[i].cached)
  }

  // ----- The pool as a sequence of candidates -----

  /** How many candidates are worse than this idle time. */
  function Rank(v: seq<Candidate>, idle: nat): (k: nat)
    ensures k <= |v| && (forall i :: 0 <= i < k ==> v[i].idle < idle) && (k < |v| ==> v[k].idle >= idle)
  {
    if v == [] || v[0].idle >= idle then 0 else
      assert forall i :: 0 < i < 1 + Rank(v[1..], idle) ==> v[i] == v[1..][i - 1];
      1 + Rank(v[1..], idle)
  }

  /** What offering a candidate makes of a pool: it goes in before those that are no worse; a
      full pool loses its worst candidate, or does not take one that is no better. */
  function Offered(v: seq<Candidate>, c: Candidate): seq<Candidate>
  {
    var k := Rank(v, c.idle);
    if |v| < EVPOOL_SIZE then With(v, k, c) else if k == 0 then v else With(v, k, c)[1..]
  }

  function OfferedAll(v: seq<Candidate>, cs: seq<Candidate>): seq<Candidate>
  {
    if cs == [] then v else Offered(OfferedAll(v, cs[..|cs| - 1]), cs[|cs| - 1])
  }

  ghost predicate SortedByIdle(v: seq<Candidate>) { forall i, j :: 0 <= i < j < |v| ==> v[i].idle <= v[j].idle }

  /** `v` holds `n` of `all` with none better left out, or all of them if they are fewer. */
  ghost predicate Best(v: seq<Candidate>, all: multiset<Candidate>, n: nat)
  {
    && multiset(v) <= all && |v| == (if |all| <= n then |all| else n)
    && forall c :: c in all - multiset(v) ==> forall i :: 0 <= i < |v| ==> c.idle <= v[i].idle
  }

  lemma OfferedSorted(v: seq<Candidate>, c: Candidate)
    requires SortedByIdle(v)
    ensures SortedByIdle(Offered(v, c))
  {
    var k := Rank(v, c.idle);
    var w := With(v, k, c);
    hide Rank, With;
    assert SortedByIdle(w);
  }

  lemma WithMultiset(v: seq<Candidate>, k: nat, c: Candidate)
    requires k <= |v|
    ensures multiset(With(v, k, c)) == multiset(v) + multiset{c}
  {
    assert v == v[..k] + v[k..];
  }

  lemma TailMultiset(v: seq<Candidate>)
    requires v != []
    ensures multiset(v[1..]) == multiset(v) - multiset{v[0]} && v[0] in multiset(v)
  {
    assert v == [v[0]] + v[1..];
  }

  /** With room left the pool holds everything. */
  lemma BestRoom(v: seq<Candidate>, w: seq<Candidate>, all: multiset<Candidate>, c: Candidate)
    requires Best(v, all, EVPOOL_SIZE) && |v| < EVPOOL_SIZE && multiset(w) == multiset(v) + multiset{c}
    ensures Best(w, all + multiset{c}, EVPOOL_SIZE)
  {
    SameSize(multiset(v), all);
    assert |w| == |multiset(w)| == |v| + 1;
  }

  lemma SameSize(a: multiset<Candidate>, b: multiset<Candidate>)
    requires a <= b && |a| == |b|
    ensures a == b
  {
    assert b == a + (b - a);
    assert |b - a| == 0;
  }

  /** A candidate no better than the worst is left out. */
  lemma BestRefused(v: seq<Candidate>, all: multiset<Candidate>, c: Candidate)
    requires Best(v, all, EVPOOL_SIZE) && |v| == EVPOOL_SIZE && forall i :: 0 <= i < |v| ==> c.idle <= v[i].idle
    ensures Best(v, all + multiset{c}, EVPOOL_SIZE)
  {
    forall x | x in all + multiset{c} - multiset(v) ensures forall i :: 0 <= i < |v| ==> x.idle <= v[i].idle {
      if x !in all - multiset(v) { assert x == c; }
    }
    SizeAtLeast(multiset(v), all);
  }

  lemma SizeAtLeast(a: multiset<Candidate>, b: multiset<Candidate>)
    requires a <= b
    ensures |a| <= |b|
  {
    assert b == a + (b - a);
  }

  /** A better candidate takes the place of the worst. */
  lemma BestReplaced(v: seq<Candidate>, w: seq<Candidate>, all: multiset<Candidate>, c: Candidate)
    requires Best(v, all, EVPOOL_SIZE) && |v| == |w| == EVPOOL_SIZE
    requires multiset(w) == multiset(v) + multiset{c} - multiset{v[0]}
    requires forall i :: 0 <= i < |w| ==> v[0].idle <= w[i].idle
    ensures Best(w, all + multiset{c}, EVPOOL_SIZE)
  {
    assert v[0] in multiset(v);
    forall x | x in all + multiset{c} - multiset(w) ensures forall i :: 0 <= i < |w| ==> x.idle <= w[i].idle {
      if x !in all - multiset(v) { assert x == v[0]; }
      assert x.idle <= v[0].idle;
    }
    SizeAtLeast(multiset(v), all);
  }

  /** Offering one more candidate keeps the best. */
  lemma OfferedBest(v: seq<Candidate>, all: multiset<Candidate>, c: Candidate)
    requires SortedByIdle(v) && |v| <= EVPOOL_SIZE && Best(v, all, EVPOOL_SIZE)
    ensures Best(Offered(v, c), all + multiset{c}, EVPOOL_SIZE)
  {
    var k := Rank(v, c.idle);
    var w := With(v, k, c);
    WithMultiset(v, k, c);
    RankFirst(v, c.idle);
    hide Rank, With, Best;
    if |v| < EVPOOL_SIZE {
      BestRoom(v, w, all, c);
    } else if k == 0 {
      BestRefused(v, all, c);
    } else {
      TailMultiset(w);
      assert w[0] == v[0];
      WorstLeft(v, w, k, c);
      BestReplaced(v, w[1..], all, c);
    }
  }

  lemma RankFirst(v: seq<Candidate>, idle: nat)
    requires SortedByIdle(v)
    ensures Rank(v, idle) == 0 ==> forall i :: 0 <= i < |v| ==> idle <= v[i].idle
  {
    assert v != [] ==> forall i :: 0 <= i < |v| ==> v[0].idle <= v[i].idle;
  }

  lemma WorstLeft(v: seq<Candidate>, w: seq<Candidate>, k: nat, c: Candidate)
    requires SortedByIdle(v) && 0 < k <= |v| && w == With(v, k, c) && v[0].idle <= c.idle
    ensures forall i :: 0 <= i < |w[1..]| ==> v[0].idle <= w[1..][i].idle
  {
    forall i | 0 <= i < |w[1..]| ensures v[0].idle <= w[1..][i].idle {
      assert w[1..][i] == w[i + 1];
    }
  }

  lemma OfferedAllIs(v: seq<Candidate>, cs: seq<Candidate>)
    ensures OfferedAll(v, cs) == if cs == [] then v else Offered(OfferedAll(v, cs[..|cs| - 1]), cs[|cs| - 1])
  {
    hide Offered;
  }

  lemma BestOfSelf(v: seq<Candidate>)
    requires |v| <= EVPOOL_SIZE
    ensures Best(v, multiset(v) + multiset([]), EVPOOL_SIZE)
  {
    assert multiset(v) + multiset([]) == multiset(v);
  }

  lemma BestSize(v: seq<Candidate>, all: multiset<Candidate>)
    requires Best(v, all, EVPOOL_SIZE)
    ensures |v| <= EVPOOL_SIZE
  {}

  /** A populated pool holds the best of what it held and what was offered. */
  lemma {:induction false} OfferedAllBest(v: seq<Candidate>, cs: seq<Candidate>)
    requires SortedByIdle(v) && |v| <= EVPOOL_SIZE
    ensures SortedByIdle(OfferedAll(v, cs)) && Best(OfferedAll(v, cs), multiset(v) + multiset(cs), EVPOOL_SIZE)
  {
    hide *;
    OfferedAllIs(v, cs);
    BestOfSelf(v);
    if cs != [] {
      var init, c := cs[..|cs| - 1], cs[|cs| - 1];
      OfferedAllBest(v, init);
      BestSize(OfferedAll(v, init), multiset(v) + multiset(init));
      OfferedSorted(OfferedAll(v, init), c);
      OfferedBest(OfferedAll(v, init), multiset(v) + multiset(init), c);
      assert cs == init + [c];
      assert multiset(v) + multiset(cs) == multiset(v) + multiset(init) + multiset{c};
    }
  }

  // ----- Views of shifted pools -----

  /** The slots after a key has been written into slot `k`: in its buffer if it fits, otherwise
      in new memory. */
  ghost predicate Puts(s: seq<Slot>, mem: Strings, used: nat, s': seq<Slot>, mem': Strings, used': nat, k: nat,
                       c: Candidate)
    requires k < |s|
  {
    var b := s[k].cached;
    if |c.key| <= EVPOOL_CACHED_SDS_SIZE then
      s' == s[k := Slot(c.idle, Some(b), b)] && mem' == mem[b := c.key] && used' == used
    else
      s' == s[k := Slot(c.idle, Some(used), b)] && mem' == mem[used := c.key] && used' == used + 1
  }

  /** What that comes to: the slot holds the candidate, the others what they held, in the same
      buffers, and no key shares memory with another slot. */
  ghost predicate HasPut(s: seq<Slot>, mem: Strings, s': seq<Slot>, mem': Strings, used': nat, k: nat, c: Candidate)
    requires k < |s|
  {
    && |s'| == |s| && Separate(s', mem', used') && Buffers(s') == Buffers(s)
    && s'[k].idle == c.idle && s'[k].key.Some? && TextAt(s', mem', k) == c.key
    && forall i :: 0 <= i < |s| && i != k ==> s'[i] == s[i] && TextAt(s', mem', i) == TextAt(s, mem, i)
  }

  lemma HasPutParts(s: seq<Slot>, mem: Strings, s': seq<Slot>, mem': Strings, used': nat, k: nat, c: Candidate)
    requires k < |s| && HasPut(s, mem, s', mem', used', k, c)
    ensures |s'| == |s| && Separate(s', mem', used') && Buffers(s') == Buffers(s)
    ensures s'[k].idle == c.idle && s'[k].key.Some? && TextAt(s', mem', k) == c.key
    ensures forall i :: 0 <= i < |s| && i != k ==> s'[i] == s[i] && TextAt(s', mem', i) == TextAt(s, mem, i)
  {
    hide Separate, Buffers;
  }

  lemma PutsText(s: seq<Slot>, mem: Strings, used: nat, s': seq<Slot>, mem': Strings, used': nat, k: nat, c: Candidate)
    requires k < |s| && Ready(s, mem, used, k) && Puts(s, mem, used, s', mem', used', k, c)
    ensures HasPut(s, mem, s', mem', used', k, c)
  {
    Written(s, mem, used, k, c.key, c.idle);
    forall i | 0 <= i < |s| && i != k ensures TextAt(s', mem', i) == TextAt(s, mem, i) {
      WrittenText(s, mem, used, k, c.key, c.idle, i);
    }
    hide Separate, Ready;
    assert Cached(s') == Cached(s);
  }

  lemma FilledIs(s: seq<Slot>, n: nat)
    requires Filled(s, n)
    ensures |s| == EVPOOL_SIZE >= n && forall i :: 0 <= i < |s| ==> (s[i].key.Some? <==> i < n)
  {}

  /** The first empty slot takes a candidate that is better than all. */
  lemma PutEmpty(s: seq<Slot>, mem: Strings, used: nat, n: nat, s': seq<Slot>, mem': Strings, used': nat, c: Candidate)
    requires Filled(s, n) && Separate(s, mem, used) && n < EVPOOL_SIZE && Rank(View(s, mem, n), c.idle) == n
    requires Puts(s, mem, used, s', mem', used', n, c)
    ensures Filled(s', n + 1) && Separate(s', mem', used') && Buffers(s') == Buffers(s)
    ensures View(s', mem', n + 1) == Offered(View(s, mem, n), c)
  {
    hide *;
    FilledIs(s, n);
    var v := View(s, mem, n);
    ReadyHere(s, mem, used, n);
    PutsText(s, mem, used, s', mem', used', n, c);
    HasPutParts(s, mem, s', mem', used', n, c);
    ViewSorted(s, mem, n);
    OfferedSorted(v, c);
    OfferedIs(v, c);
    var w := With(v, n, c);
    forall i | 0 <= i < n + 1 ensures CandidateAt(s', mem', i) == w[i] {
      if i < n {
        CandidateOf(s, s', mem, mem', i, i);
        CandidateIs(s, mem, n, i);
      } else {
        CandidateHas(s', mem', n);
      }
    }
    ViewIs(s', mem', n + 1, w);
    FilledFrom(s', mem', n + 1);
  }

  lemma RankBound(v: seq<Candidate>, idle: nat)
    ensures Rank(v, idle) <= |v| && (forall i :: 0 <= i < Rank(v, idle) ==> v[i].idle < idle)
    ensures Rank(v, idle) < |v| ==> v[Rank(v, idle)].idle >= idle
  {}

  /** With room on the right the better candidates move there. */
  lemma PutRight(s: seq<Slot>, mem: Strings, used: nat, n: nat, s': seq<Slot>, mem': Strings, used': nat, k: nat,
                 c: Candidate)
    requires Filled(s, n) && Separate(s, mem, used) && n < EVPOOL_SIZE && Rank(View(s, mem, n), c.idle) == k < n
    requires Puts(ShiftRight(s, k), mem, used, s', mem', used', k, c)
    ensures Filled(s', n + 1) && Separate(s', mem', used') && Buffers(s') == Buffers(s)
    ensures View(s', mem', n + 1) == Offered(View(s, mem, n), c)
  {
    hide *;
    FilledIs(s, n);
    var v, r := View(s, mem, n), ShiftRight(s, k);
    ReadyRight(s, mem, used, k);
    PutsText(r, mem, used, s', mem', used', k, c);
    HasPutParts(r, mem, s', mem', used', k, c);
    BuffersRight(s, k);
    ViewSorted(s, mem, n);
    OfferedSorted(v, c);
    OfferedIs(v, c);
    var w := With(v, k, c);
    forall i | 0 <= i < n + 1 ensures CandidateAt(s', mem', i) == w[i] {
      if i != k {
        SameText(r, mem, s, mem, i, if i < k then i else i - 1);
        CandidateOf(r, s', mem, mem', i, i);
        CandidateOf(s, r, mem, mem, if i < k then i else i - 1, i);
        CandidateIs(s, mem, n, if i < k then i else i - 1);
      } else {
        CandidateHas(s', mem', k);
      }
    }
    ViewIs(s', mem', n + 1, w);
    FilledFrom(s', mem', n + 1);
  }

  function CandidateAt(s: seq<Slot>, mem: Strings, i: nat): Candidate
    requires i < |s|
  {
    Candidate(s[i].idle, TextAt(s, mem, i))
  }

  lemma CandidateHas(s: seq<Slot>, mem: Strings, i: nat)
    requires i < |s|
    ensures CandidateAt(s, mem, i) == Candidate(s[i].idle, TextAt(s, mem, i))
  {}

  lemma CandidateIs(s: seq<Slot>, mem: Strings, n: nat, i: nat)
    requires i < n <= |s|
    ensures View(s, mem, n)[i] == CandidateAt(s, mem, i)
  {}

  lemma CandidateOf(s: seq<Slot>, t: seq<Slot>, mem: Strings, mem': Strings, i: nat, j: nat)
    requires i < |s| && j < |t| && s[i].idle == t[j].idle && TextAt(t, mem', j) == TextAt(s, mem, i)
    ensures CandidateAt(t, mem', j) == CandidateAt(s, mem, i)
  {}

  lemma SameText(r: seq<Slot>, m: Strings, s: seq<Slot>, mem: Strings, i: nat, j: nat)
    requires i < |r| && j < |s| && r[i] == s[j]
    requires m == mem || exists a :: m == mem - {a} && r[i].key != Some(a)
    ensures TextAt(r, m, i) == TextAt(s, mem, j)
  {}

  lemma ViewIs(s: seq<Slot>, mem: Strings, n: nat, w: seq<Candidate>)
    requires n == |w| <= |s| && forall i :: 0 <= i < n ==> CandidateAt(s, mem, i) == w[i]
    ensures View(s, mem, n) == w
  {
    hide TextAt;
  }

  lemma OfferedIs(v: seq<Candidate>, c: Candidate)
    ensures var k := Rank(v, c.idle);
            Offered(v, c) == if |v| < EVPOOL_SIZE then With(v, k, c) else if k == 0 then v else With(v, k, c)[1..]
  {
    hide Rank, With;
  }

  lemma ViewSorted(s: seq<Slot>, mem: Strings, n: nat)
    requires Filled(s, n)
    ensures SortedByIdle(View(s, mem, n))
  {}

  lemma FilledFrom(s: seq<Slot>, mem: Strings, n: nat)
    requires |s| == EVPOOL_SIZE && n <= EVPOOL_SIZE
    requires (forall i :: 0 <= i < |s| ==> (s[i].key.Some? <==> i < n)) && SortedByIdle(View(s, mem, n))
    ensures Filled(s, n)
  {
    forall i, j | 0 <= i < j < n ensures s[i].idle <= s[j].idle {
      assert View(s, mem, n)[i].idle <= View(s, mem, n)[j].idle;
    }
  }

  /** In a full pool the worse candidates move down over the worst. */
  lemma PutLeft(s: seq<Slot>, mem: Strings, used: nat, m: Strings, s': seq<Slot>, mem': Strings, used': nat, k: nat,
                c: Candidate)
    requires Filled(s, EVPOOL_SIZE) && Separate(s, mem, used) && Rank(View(s, mem, EVPOOL_SIZE), c.idle) == k + 1
    requires m == if s[0].key != Some(s[0].cached) then mem - {s[0].key.value} else mem
    requires Puts(ShiftLeft(s, k), m, used, s', mem', used', k, c)
    ensures Filled(s', EVPOOL_SIZE) && Separate(s', mem', used') && Buffers(s') == Buffers(s)
    ensures View(s', mem', EVPOOL_SIZE) == Offered(View(s, mem, EVPOOL_SIZE), c)
  {
    hide *;
    FilledIs(s, EVPOOL_SIZE);
    var v, r := View(s, mem, EVPOOL_SIZE), ShiftLeft(s, k);
    RankBound(v, c.idle);
    SizeIs();
    ReadyLeft(s, mem, used, k);
    PutsText(r, m, used, s', mem', used', k, c);
    HasPutParts(r, m, s', mem', used', k, c);
    BuffersLeft(s, k);
    ViewSorted(s, mem, EVPOOL_SIZE);
    OfferedSorted(v, c);
    OfferedIs(v, c);
    FirstKey(s, mem, used);
    var w := With(v, k + 1, c);
    forall i | 0 <= i < EVPOOL_SIZE ensures CandidateAt(s', mem', i) == w[1..][i] {
      if i != k {
        var j := if i < k then i + 1 else i;
        SameText(r, m, s, mem, i, j);
        CandidateOf(r, s', m, mem', i, i);
        CandidateOf(s, r, mem, m, j, i);
        CandidateIs(s, mem, EVPOOL_SIZE, j);
      } else {
        CandidateHas(s', mem', k);
      }
    }
    ViewIs(s', mem', EVPOOL_SIZE, w[1..]);
    FilledFrom(s', mem', EVPOOL_SIZE);
  }

  lemma SizeIs()
    ensures EVPOOL_SIZE == 16
  {}

  class Pool {
    const slots: array<Slot>
    var mem: Strings
    var used: nat
    ghost var n: nat

    ghost predicate Valid()
      reads this, slots
    {
      Filled(slots[..], n) && Separate(slots[..], mem, used)
    }

    /** The candidates in the pool, from worst to best. */
    ghost function V(): seq<Candidate>
      reads this, slots
    {
      if n <= slots.Length then View(slots[..], mem, n) else []
    }

    /** evictionPoolAlloc: empty slots, each with a buffer of its own. */
    constructor ()
      ensures Valid() && V() == [] && fresh(slots)
    {
      slots := new Slot[EVPOOL_SIZE](i => if i < 0 then Slot(0, None, 0) else Slot(0, None, i));
      mem, used, n := map[], EVPOOL_SIZE, 0;
    }

    lemma Parts()
      requires Valid()
      ensures slots.Length == EVPOOL_SIZE >= n && Filled(slots[..], n) && Separate(slots[..], mem, used)
      ensures V() == View(slots[..], mem, n)
      ensures forall i :: 0 <= i < slots.Length ==> (slots[i].key.Some? <==> i < n)
    {
      FilledIs(slots[..], n);
      assert forall i :: 0 <= i < slots.Length ==> slots[..][i] == slots[i];
      hide Filled, Separate, View;
    }

    lemma IsValid()
      requires Filled(slots[..], n) && Separate(slots[..], mem, used)
      ensures Valid() && n <= slots.Length && V() == View(slots[..], mem, n)
    {
      FilledIs(slots[..], n);
      hide Filled, Separate, View;
    }

    /** Store a key in slot `k`: in its buffer if it is short enough, else in new memory. */
    method Put(k: nat, c: Candidate)
      requires k < slots.Length
      modifies slots, this`mem, this`used
      ensures Puts(old(slots[..]), old(mem), old(used), slots[..], mem, used, k, c)
      ensures Ready(old(slots[..]), old(mem), old(used), k) ==>
        HasPut(old(slots[..]), old(mem), slots[..], mem, used, k, c)
    {
      hide Ready, HasPut;
      var s := slots[k];
      if |c.key| > EVPOOL_CACHED_SDS_SIZE {
        mem := mem[used := c.key];
        slots[k] := Slot(c.idle, Some(used), s.cached);
        used := used + 1;
      } else {
        mem := mem[s.cached := c.key];
        slots[k] := Slot(c.idle, Some(s.cached), s.cached);
      }
      assert slots[..] == old(slots[..])[k := slots[k]];
      if Ready(old(slots[..]), old(mem), old(used), k) {
        PutsText(old(slots[..]), old(mem), old(used), slots[..], mem, used, k, c);
      }
    }

    /** The memmove of the slots from `k` on to the right. */
    method MoveRight(k: nat)
      requires slots.Length == EVPOOL_SIZE && k < EVPOOL_SIZE
      modifies slots
      ensures slots[..] == ShiftRight(old(slots[..]), k)
    {
      var cached := slots[EVPOOL_SIZE - 1].cached;
      forall i | k < i < EVPOOL_SIZE { slots[i] := slots[i - 1]; }
      slots[k] := slots[k].(cached := cached);
    }

    /** The memmove of the slots up to `k` to the left. */
    method MoveLeft(k: nat)
      requires slots.Length == EVPOOL_SIZE && k < EVPOOL_SIZE
      modifies slots
      ensures slots[..] == ShiftLeft(old(slots[..]), k)
    {
      var cached := slots[0].cached;
      forall i | 0 <= i < k { slots[i] := slots[i + 1]; }
      slots[k] := slots[k].(cached := cached);
    }

    /** The body of evictionPoolPopulate's loop for one sampled key. */
    method Offer(c: Candidate)
      requires Valid()
      modifies this, slots
      ensures Valid() && V() == Offered(old(V()), c) && Buffers(slots[..]) == old(Buffers(slots[..]))
    {
      hide *;
      Parts();
      SizeIs();
      ghost var s, m, u, v := slots[..], mem, used, V();
      OfferedIs(v, c);
      RankBound(v, c.idle);
      ViewSorted(s, m, n);
      var k := 0;
      while k < EVPOOL_SIZE && slots[k].key.Some? && slots[k].idle < c.idle
        invariant k <= n && forall i :: 0 <= i < k ==> slots[i].idle < c.idle
      {
        k := k + 1;
      }
      WalkedTo(s, m, n, k, c.idle);
      if k == 0 && slots[EVPOOL_SIZE - 1].key.Some? {
        return;
      } else if k < EVPOOL_SIZE && slots[k].key.None? {
        Put(k, c);
        PutEmpty(s, m, u, n, slots[..], mem, used, c);
        n := n + 1;
      } else if slots[EVPOOL_SIZE - 1].key.None? {
        MoveRight(k);
        Put(k, c);
        PutRight(s, m, u, n, slots[..], mem, used, k, c);
        n := n + 1;
      } else {
        k := k - 1;
        if slots[0].key != Some(slots[0].cached) { mem := mem - {slots[0].key.value}; }
        ghost var freed := mem;
        MoveLeft(k);
        Put(k, c);
        PutLeft(s, m, u, freed, slots[..], mem, used, k, c);
      }
      IsValid();
    }

    /** evictionPoolPopulate for the keys sampled, with their idle times by the policy. */
    method Populate(samples: seq<Candidate>)
      requires Valid()
      modifies this, slots
      ensures Valid() && V() == OfferedAll(old(V()), samples) && Buffers(slots[..]) == old(Buffers(slots[..]))
      ensures SortedByIdle(V()) && Best(V(), multiset(old(V())) + multiset(samples), EVPOOL_SIZE)
    {
      hide *;
      Parts();
      ghost var v := V();
      ViewSorted(slots[..], mem, n);
      OfferedAllBest(v, samples);
      var j := 0;
      OfferedAllNone(v, samples);
      while j < |samples|
        invariant j <= |samples| && Valid() && V() == OfferedAll(v, samples[..j])
        invariant Buffers(slots[..]) == old(Buffers(slots[..]))
      {
        OfferedAllStep(v, samples, j);
        Offer(samples[j]);
        j := j + 1;
      }
    }

    /** The loop of freeMemoryIfNeeded that goes through the pool from the right: each entry is
        removed, until one names a key that is still in the database. */
    method TakeBest(db: set<Octets>) returns (bestkey: Option<Octets>)
      requires Valid()
      modifies this, slots
      ensures Valid() && Buffers(slots[..]) == old(Buffers(slots[..]))
      ensures var v, i := old(V()), BestIn(old(V()), db);
              && (i < 0 ==> bestkey.None? && V() == [])
              && (i >= 0 ==> bestkey == Some(v[i].key) && V() == v[..i])
    {
      hide *;
      Parts();
      ghost var v := V();
      bestkey := None;
      var k := EVPOOL_SIZE;
      assert v[..n] == v;
      while k > 0
        invariant k <= EVPOOL_SIZE && Valid() && n <= k && n <= |v| && V() == v[..n]
        invariant Buffers(slots[..]) == old(Buffers(slots[..])) && BestIn(v[..n], db) == BestIn(v, db)
        decreases k
      {
        k := k - 1;
        Parts();
        if slots[k].key.None? { continue; }
        BestInStep(v, n, db);
        CandidateIs(slots[..], mem, n, k);
        TextIs(slots[..], mem, used, k);
        Cleared(slots[..], mem, used, n);
        var slot := slots[k];
        var text := mem[slot.key.value];
        if slot.key != Some(slot.cached) { mem := mem - {slot.key.value}; }
        ghost var s := slots[..];
        slots[k] := Slot(0, None, slot.cached);
        assert slots[..] == s[k := Slot(0, None, slot.cached)];
        n := n - 1;
        IsValid();
        assert v[..n + 1][..n] == v[..n];
        if text in db {
          bestkey := Some(text);
          break;
        }
      }
      if bestkey.None? { BestInNone(v, db, n); }
    }
  }

  /** The best candidate that is still in the database, or -1. */
  function BestIn(v: seq<Candidate>, db: set<Octets>): (i: int)
    ensures -1 <= i < |v| && (i >= 0 ==> v[i].key in db) && forall j :: i < j < |v| ==> v[j].key !in db
  {
    if v == [] then -1 else if v[|v| - 1].key in db then |v| - 1 else BestIn(v[..|v| - 1], db)
  }

  lemma BestInStep(v: seq<Candidate>, n: nat, db: set<Octets>)
    requires 0 < n <= |v|
    ensures BestIn(v[..n], db) == if v[n - 1].key in db then n - 1 else BestIn(v[..n - 1], db)
  {
    assert v[..n][..n - 1] == v[..n - 1];
  }

  lemma BestInNone(v: seq<Candidate>, db: set<Octets>, n: nat)
    requires n <= |v| && BestIn(v[..n], db) == BestIn(v, db)
    ensures n == 0 ==> BestIn(v, db) == -1 && v[..n] == []
  {}

  lemma TextIs(s: seq<Slot>, mem: Strings, used: nat, k: nat)
    requires Separate(s, mem, used) && k < |s| && s[k].key.Some?
    ensures s[k].key.value in mem && CandidateAt(s, mem, k).key == mem[s[k].key.value]
  {}

  /** Clearing the last slot in use. */
  lemma Cleared(s: seq<Slot>, mem: Strings, used: nat, n: nat)
    requires Filled(s, n) && Separate(s, mem, used) && n > 0
    ensures n <= |s| && s[n - 1].key.Some?
    ensures var k := n - 1;
            var s' := s[k := Slot(0, None, s[k].cached)];
            var m := if s[k].key != Some(s[k].cached) then mem - {s[k].key.value} else mem;
            && Filled(s', k) && Separate(s', m, used) && Buffers(s') == Buffers(s)
               && View(s', m, k) == View(s, mem, n)[..k]
  {
    hide *;
    FilledIs(s, n);
    var k := n - 1;
    var s' := s[k := Slot(0, None, s[k].cached)];
    var m := if s[k].key != Some(s[k].cached) then mem - {s[k].key.value} else mem;
    ClearedFilled(s, n);
    ClearedSeparate(s, mem, used, k);
    assert Cached(s') == Cached(s);
    var w := View(s, mem, n)[..k];
    forall i | 0 <= i < k ensures CandidateAt(s', m, i) == w[i] {
      OtherKey(s, mem, used, i, k);
      SameText(s', m, s, mem, i, i);
      CandidateOf(s, s', mem, m, i, i);
      CandidateIs(s, mem, n, i);
    }
    ViewIs(s', m, k, w);
  }

  lemma OtherKey(s: seq<Slot>, mem: Strings, used: nat, i: nat, k: nat)
    requires Separate(s, mem, used) && i < |s| && k < |s| && i != k && s[i].key.Some?
    ensures s[i].key != s[k].key
  {}

  lemma ClearedFilled(s: seq<Slot>, n: nat)
    requires Filled(s, n) && n > 0
    ensures n <= |s| && Filled(s[n - 1 := Slot(0, None, s[n - 1].cached)], n - 1)
  {}

  lemma ClearedSeparate(s: seq<Slot>, mem: Strings, used: nat, k: nat)
    requires Separate(s, mem, used) && k < |s| && s[k].key.Some?
    ensures Separate(s[k := Slot(0, None, s[k].cached)],
                     if s[k].key != Some(s[k].cached) then mem - {s[k].key.value} else mem, used)
  {
    forall i | 0 <= i < |s| && i != k && s[i].key.Some? ensures s[i].key != s[k].key {
      OtherKey(s, mem, used, i, k);
    }
  }

  lemma OfferedAllNone(v: seq<Candidate>, cs: seq<Candidate>)
    ensures OfferedAll(v, cs[..0]) == v && cs[..|cs|] == cs
  {}

  lemma OfferedAllStep(v: seq<Candidate>, cs: seq<Candidate>, j: nat)
    requires j < |cs|
    ensures OfferedAll(v, cs[..j + 1]) == Offered(OfferedAll(v, cs[..j]), cs[j])
  {
    assert cs[..j + 1][..j] == cs[..j];
  }

  /** Where the search for a place stops. */
  lemma WalkedTo(s: seq<Slot>, mem: Strings, n: nat, k: nat, idle: nat)
    requires Filled(s, n) && k <= n && forall i :: 0 <= i < k ==> s[i].idle < idle
    requires k < n ==> s[k].idle >= idle
    ensures n <= |s| && Rank(View(s, mem, n), idle) == k
  {
    RankBound(View(s, mem, n), idle);
    hide Rank, TextAt;
    var r := Rank(View(s, mem, n), idle);
    assert r < n ==> View(s, mem, n)[r].idle == s[r].idle;
    assert k < n ==> View(s, mem, n)[k].idle == s[k].idle;
  }
}
