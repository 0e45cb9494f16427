/** The two-table hash of dict.c: its state as a value, the lookup that state answers, and
    what each kind of change to it does to that lookup. */
module DictState {
  import opened Bits
  import opened Options

  datatype Entry<K, V> = Entry(key: K, val: V)
  type Chain<K, V> = seq<Entry<K, V>>

  /** One dictht: `buckets` is empty for a table that has not been allocated. */
  datatype Table<K, V> = Table(buckets: seq<Chain<K, V>>, mask: bv64, used: nat)
  {
    function Size(): nat { |buckets| }
  }

  /** The fields of a dict that its operations change. */
  datatype State<K, V> = State(ht0: Table<K, V>, ht1: Table<K, V>, rehashidx: int, iterators: nat)
  {
    predicate Rehashing() { rehashidx != -1 }
    function Used(): nat { ht0.used + ht1.used }
  }

  function NoTable<K, V>(): Table<K, V> { Table([], 0, 0) }

  // ----- Lookup -----

  function InChain<K(==), V>(c: Chain<K, V>, k: K): Option<V>
  {
    if c == [] then None else if c[0].key == k then Some(c[0].val) else InChain(c[1..], k)
  }

  predicate Shaped<K, V>(t: Table<K, V>)
  {
    LowMask(t.mask) && if t.buckets == [] then t.mask == 0 && t.used == 0 else Val(t.mask) + 1 == |t.buckets|
  }

  /** The bucket a hash selects: the hash under the table's mask. */
  function Slot<K, V>(h: bv64, t: Table<K, V>): (i: nat)
    requires Shaped(t) && t.buckets != []
    ensures i < |t.buckets|
  {
    MaskBound(h, t.mask);
    Val(h & t.mask)
  }

  function InTable<K(==), V>(t: Table<K, V>, hash: K -> bv64, k: K): Option<V>
    requires Shaped(t)
  {
    if t.buckets == [] then None else InChain(t.buckets[Slot(hash(k), t)], k)
  }

  function Lookup<K(==), V>(s: State<K, V>, hash: K -> bv64, k: K): Option<V>
    requires Shaped(s.ht0) && Shaped(s.ht1)
  {
    var v := InTable(s.ht0, hash, k);
    if v.Some? then v else InTable(s.ht1, hash, k)
  }

  // ----- The invariant -----

  ghost predicate Distinct<K, V>(c: Chain<K, V>)
  {
    forall i, j :: 0 <= i < j < |c| ==> c[i].key != c[j].key
  }

  /** Every entry sits in the bucket its hash selects, and no bucket repeats a key. */
  ghost predicate Placed<K, V>(t: Table<K, V>, hash: K -> bv64)
    requires Shaped(t)
  {
    forall i {:trigger t.buckets[i]} :: 0 <= i < |t.buckets| ==>
      Distinct(t.buckets[i]) &&
      forall j :: 0 <= j < |t.buckets[i]| ==> Slot(hash(t.buckets[i][j].key), t) == i
  }

  function Count<K, V>(b: seq<Chain<K, V>>): nat
  {
    if b == [] then 0 else |b[0]| + Count(b[1..])
  }

  ghost predicate TableInv<K, V>(t: Table<K, V>, hash: K -> bv64)
  {
    Shaped(t) && Placed(t, hash) && t.used == Count(t.buckets)
  }

  /** Each key is in one table only; outside a rehash the second table is absent, during one
      the first table is empty below the rehash index. */
  ghost predicate Inv<K(!new), V>(s: State<K, V>, hash: K -> bv64)
  {
    && TableInv(s.ht0, hash) && TableInv(s.ht1, hash)
    && (forall k :: InTable(s.ht0, hash, k).None? || InTable(s.ht1, hash, k).None?)
    && if s.Rehashing() then
         && 0 <= s.rehashidx <= |s.ht0.buckets| && s.ht0.buckets != [] && s.ht1.buckets != []
         && forall i :: 0 <= i < s.rehashidx ==> s.ht0.buckets[i] == []
       else s.ht1 == NoTable()
  }

  /** The state stands for the map `m`, whose size is the two `used` counts together. */
  ghost predicate Represents<K(!new), V>(s: State<K, V>, hash: K -> bv64, m: map<K, V>)
    requires Shaped(s.ht0) && Shaped(s.ht1)
  {
    && |m| == s.Used()
    && forall k :: Lookup(s, hash, k) == if k in m then Some(m[k]) else None
  }

  /** The state is well formed and stands for `m`. */
  ghost predicate Stands<K(!new), V>(s: State<K, V>, hash: K -> bv64, m: map<K, V>)
  {
    Inv(s, hash) && Represents(s, hash, m)
  }

  // ----- Chains -----

  lemma {:induction false} InChainAt<K, V>(c: Chain<K, V>, i: nat)
    requires i < |c| && Distinct(c)
    ensures InChain(c, c[i].key) == Some(c[i].val)
  {
    if i > 0 {
      assert c[0].key != c[i].key;
      assert c[1..][i - 1] == c[i];
      InChainAt(c[1..], i - 1);
    }
  }

  lemma {:induction false} InChainFinds<K, V>(c: Chain<K, V>, k: K) returns (i: nat)
    requires InChain(c, k).Some?
    ensures i < |c| && c[i].key == k && InChain(c, k) == Some(c[i].val)
  {
    if c[0].key == k {
      i := 0;
    } else {
      i := InChainFinds(c[1..], k);
      i := i + 1;
    }
  }

  /** Unlinking the entry at `i` removes its key and no other. */
  lemma {:induction false} Unlinked<K, V>(c: Chain<K, V>, i: nat, k: K)
    requires i < |c| && Distinct(c)
    ensures InChain(c[..i] + c[i + 1..], k) == if k == c[i].key then None else InChain(c, k)
    ensures Distinct(c[..i] + c[i + 1..])
  {
    var d := c[..i] + c[i + 1..];
    if k == c[i].key {
      if InChain(d, k).Some? {
        var j := InChainFinds(d, k);
      }
    } else if i == 0 {
      assert d == c[1..];
    } else {
      assert d[0] == c[0];
      assert d[1..] == c[1..][..i - 1] + c[1..][i..];
      assert c[1..][i - 1] == c[i];
      Unlinked(c[1..], i - 1, k);
    }
  }

  /** Storing a new value in the entry at `i` changes what its key maps to and no other. */
  lemma {:induction false} Overwritten<K, V>(c: Chain<K, V>, i: nat, v: V, k: K)
    requires i < |c| && Distinct(c)
    ensures InChain(c[i := c[i].(val := v)], k) == if k == c[i].key then Some(v) else InChain(c, k)
    ensures Distinct(c[i := c[i].(val := v)])
  {
    var d := c[i := c[i].(val := v)];
    assert forall j :: 0 <= j < |c| ==> d[j].key == c[j].key;
    if i == 0 {
      assert d[1..] == c[1..];
    } else {
      assert d[1..] == c[1..][i - 1 := c[i].(val := v)];
      assert c[1..][i - 1] == c[i];
      assert c[0].key != c[i].key;
      Overwritten(c[1..], i - 1, v, k);
    }
  }

  // ----- Counting -----

  lemma {:induction false} CountUpdate<K, V>(b: seq<Chain<K, V>>, i: nat, c: Chain<K, V>)
    requires i < |b|
    ensures Count(b[i := c]) == Count(b) - |b[i]| + |c|
  {
    if i == 0 {
      assert b[0 := c][1..] == b[1..];
    } else {
      assert b[i := c][1..] == b[1..][i - 1 := c];
      assert b[1..][i - 1] == b[i];
      CountUpdate(b[1..], i - 1, c);
    }
  }

  lemma {:induction false} CountZero<K, V>(b: seq<Chain<K, V>>)
    ensures Count(b) == 0 <==> forall i :: 0 <= i < |b| ==> b[i] == []
  {
    if b != [] {
      CountZero(b[1..]);
      if Count(b) == 0 {
        forall i | 0 <= i < |b| ensures b[i] == [] {
          if i > 0 { assert b[i] == b[1..][i - 1]; }
        }
      } else if b[0] == [] {
        var i :| 0 <= i < |b[1..]| && b[1..][i] != [];
        assert b[i + 1] != [];
      }
    }
  }

  // ----- One bucket of one table -----

  function SetBucket<K, V>(t: Table<K, V>, i: nat, c: Chain<K, V>): Table<K, V>
    requires i < |t.buckets|
  {
    Table(t.buckets[i := c], t.mask, Count(t.buckets[i := c]))
  }

  lemma SameSlots<K, V>(t: Table<K, V>, i: nat, c: Chain<K, V>, h: bv64)
    requires Shaped(t) && i < |t.buckets| && (t.buckets != [] && SetBucket(t, i, c).buckets != [])
    ensures Shaped(SetBucket(t, i, c)) && Slot(h, SetBucket(t, i, c)) == Slot(h, t)
  {
    hide LowMask, Val;
  }

  lemma BucketLookup<K, V>(t: Table<K, V>, hash: K -> bv64, i: nat, c: Chain<K, V>, k: K)
    requires Shaped(t) && i < |t.buckets|
    ensures Shaped(SetBucket(t, i, c))
    ensures InTable(SetBucket(t, i, c), hash, k) == if Slot(hash(k), t) == i then InChain(c, k) else InTable(t, hash, k)
  {
    hide LowMask, Val, InChain, Slot;
    SameSlots(t, i, c, hash(k));
  }

  /** Replacing one bucket by a chain that belongs there keeps the table's invariant, and
      changes lookups for that bucket's hashes only. */
  lemma BucketReplaced<K(!new), V>(t: Table<K, V>, hash: K -> bv64, i: nat, c: Chain<K, V>)
    requires TableInv(t, hash) && i < |t.buckets| && Distinct(c)
    requires forall j :: 0 <= j < |c| ==> Slot(hash(c[j].key), t) == i
    ensures var t' := SetBucket(t, i, c);
            && TableInv(t', hash) && t'.used == t.used - |t.buckets[i]| + |c|
            && forall k :: InTable(t', hash, k) == if Slot(hash(k), t) == i then InChain(c, k) else InTable(t, hash, k)
  {
    hide Val, LowMask, InChain, InTable, Slot, Placed, Count;
    CountUpdate(t.buckets, i, c);
    BucketPlaced(t, hash, i, c);
    forall k ensures InTable(SetBucket(t, i, c), hash, k)
        == if Slot(hash(k), t) == i then InChain(c, k) else InTable(t, hash, k)
    {
      BucketLookup(t, hash, i, c, k);
    }
  }

  lemma BucketPlaced<K(!new), V>(t: Table<K, V>, hash: K -> bv64, i: nat, c: Chain<K, V>)
    requires Shaped(t) && Placed(t, hash) && i < |t.buckets| && Distinct(c)
    requires forall j :: 0 <= j < |c| ==> Slot(hash(c[j].key), t) == i
    ensures Shaped(SetBucket(t, i, c)) && Placed(SetBucket(t, i, c), hash)
  {
    hide Val, LowMask, Slot, Distinct, Count;
    var t' := SetBucket(t, i, c);
    forall h: bv64 ensures Shaped(t') && Slot(h, t') == Slot(h, t) {
      SameSlots(t, i, c, h);
    }
  }

  /** A key found in a table was found in the bucket of its own hash. */
  lemma EntryIsFound<K, V>(t: Table<K, V>, hash: K -> bv64, i: nat, j: nat)
    requires TableInv(t, hash) && i < |t.buckets| && j < |t.buckets[i]|
    ensures InTable(t, hash, t.buckets[i][j].key) == Some(t.buckets[i][j].val)
    ensures Slot(hash(t.buckets[i][j].key), t) == i
  {
    InChainAt(t.buckets[i], j);
  }

  // ----- Steps on a whole state -----

  /** Move the first entry of the bucket being rehashed to the head of its new bucket. */
  function MoveHead<K, V>(s: State<K, V>, hash: K -> bv64): State<K, V>
    requires 0 <= s.rehashidx < |s.ht0.buckets| && s.ht0.buckets[s.rehashidx] != []
    requires Shaped(s.ht1) && s.ht1.buckets != []
  {
    var c := s.ht0.buckets[s.rehashidx];
    var i := Slot(hash(c[0].key), s.ht1);
    s.(ht0 := SetBucket(s.ht0, s.rehashidx, c[1..]),
       ht1 := SetBucket(s.ht1, i, [c[0]] + s.ht1.buckets[i]))
  }

  /** Pushing an entry with a new key on its bucket adds exactly that key. */
  lemma Pushed<K(!new), V>(t: Table<K, V>, hash: K -> bv64, e: Entry<K, V>)
    requires TableInv(t, hash) && t.buckets != [] && InTable(t, hash, e.key).None?
    ensures var i := Slot(hash(e.key), t);
            var t' := SetBucket(t, i, [e] + t.buckets[i]);
            && TableInv(t', hash) && t'.used == t.used + 1
            && forall k :: InTable(t', hash, k) == if k == e.key then Some(e.val) else InTable(t, hash, k)
  {
    hide Val, LowMask, Slot, SetBucket;
    var i := Slot(hash(e.key), t);
    var b := t.buckets[i];
    forall j | 0 <= j < |b| ensures b[j].key != e.key {
      InChainAt(b, j);
    }
    assert ([e] + b)[1..] == b;
    BucketReplaced(t, hash, i, [e] + b);
  }

  /** Removing the entry at position `j` of bucket `i` removes exactly its key. */
  lemma Removed<K(!new), V>(t: Table<K, V>, hash: K -> bv64, i: nat, j: nat)
    requires TableInv(t, hash) && i < |t.buckets| && j < |t.buckets[i]|
    ensures var b := t.buckets[i];
            var t' := SetBucket(t, i, b[..j] + b[j + 1..]);
            && TableInv(t', hash) && t'.used == t.used - 1
            && forall k :: InTable(t', hash, k) == if k == b[j].key then None else InTable(t, hash, k)
  {
    hide Val, LowMask, Slot, SetBucket, InChain;
    var b := t.buckets[i];
    var c := b[..j] + b[j + 1..];
    forall k ensures InChain(c, k) == if k == b[j].key then None else InChain(b, k) {
      Unlinked(b, j, k);
    }
    Unlinked(b, j, b[j].key);
    assert Slot(hash(b[j].key), t) == i;
    assert forall x :: 0 <= x < |c| ==> c[x] == if x < j then b[x] else b[x + 1];
    BucketReplaced(t, hash, i, c);
  }

  lemma Rewritten<K(!new), V>(t: Table<K, V>, hash: K -> bv64, i: nat, j: nat, v: V)
    requires TableInv(t, hash) && i < |t.buckets| && j < |t.buckets[i]|
    ensures var b := t.buckets[i];
            var t' := SetBucket(t, i, b[j := b[j].(val := v)]);
            && TableInv(t', hash) && t'.used == t.used
            && forall k :: InTable(t', hash, k) == if k == b[j].key then Some(v) else InTable(t, hash, k)
  {
    hide Val, LowMask, Slot, SetBucket, InChain;
    var b := t.buckets[i];
    var c := b[j := b[j].(val := v)];
    forall k ensures InChain(c, k) == if k == b[j].key then Some(v) else InChain(b, k) {
      Overwritten(b, j, v, k);
    }
    Overwritten(b, j, v, b[j].key);
    assert Slot(hash(b[j].key), t) == i;
    assert forall x :: 0 <= x < |c| ==> c[x].key == b[x].key;
    BucketReplaced(t, hash, i, c);
  }

  /** Moving one entry between the tables keeps the invariant and every lookup. */
  lemma MoveHeadKeeps<K(!new), V>(s: State<K, V>, hash: K -> bv64)
    requires Inv(s, hash) && 0 <= s.rehashidx < |s.ht0.buckets| && s.ht0.buckets[s.rehashidx] != []
    ensures var s' := MoveHead(s, hash);
            && Inv(s', hash) && s'.Used() == s.Used()
            && s'.ht0.used == s.ht0.used - 1 && s'.ht1.used == s.ht1.used + 1
            && forall k :: Lookup(s', hash, k) == Lookup(s, hash, k)
  {
    hide Val, LowMask, Slot, SetBucket, InChain, InTable, Placed, Count;
    var i := s.rehashidx;
    var c := s.ht0.buckets[i];
    EntryIsFound(s.ht0, hash, i, 0);
    Removed(s.ht0, hash, i, 0);
    assert c[..0] + c[1..] == c[1..];
    Pushed(s.ht1, hash, c[0]);
    SetBucketIs(s.ht0, i, c[1..]);
    var j := Slot(hash(c[0].key), s.ht1);
    SetBucketIs(s.ht1, j, [c[0]] + s.ht1.buckets[j]);
  }

  /** An empty table beside the first (or in place of none) changes no lookup. */
  lemma RehashStarted<K(!new), V>(s: State<K, V>, hash: K -> bv64, t: Table<K, V>)
    requires Inv(s, hash) && !s.Rehashing()
    requires TableInv(t, hash) && t.used == 0 && t.buckets != [] && forall k :: InTable(t, hash, k).None?
    ensures var s' := if s.ht0.buckets == [] then s.(ht0 := t) else s.(ht1 := t, rehashidx := 0);
            && Inv(s', hash) && s'.Used() == s.Used()
            && forall k :: Lookup(s', hash, k) == Lookup(s, hash, k)
  {
    hide Val, LowMask, Slot, InChain, Placed, Count;
  }

  /** A first table that counts no entries holds none. */
  lemma EmptyTable<K(!new), V>(t: Table<K, V>, hash: K -> bv64)
    requires TableInv(t, hash) && t.used == 0
    ensures forall i :: 0 <= i < |t.buckets| ==> t.buckets[i] == []
    ensures forall k :: InTable(t, hash, k).None?
  {
    hide Val, LowMask, Slot;
    CountZero(t.buckets);
  }

  /** An empty bucket at the rehash index can be passed. */
  lemma BucketPassed<K(!new), V>(s: State<K, V>, hash: K -> bv64)
    requires Inv(s, hash) && 0 <= s.rehashidx < |s.ht0.buckets| && s.ht0.buckets[s.rehashidx] == []
    ensures var s' := s.(rehashidx := s.rehashidx + 1);
            Inv(s', hash) && forall k :: Lookup(s', hash, k) == Lookup(s, hash, k)
  {
    hide TableInv, Shaped, InTable;
  }

  /** While the first table counts an entry, some bucket from the rehash index on has one. */
  lemma BucketAhead<K(!new), V>(s: State<K, V>, hash: K -> bv64) returns (j: nat)
    requires Inv(s, hash) && s.Rehashing() && s.ht0.used != 0
    ensures s.rehashidx <= j < |s.ht0.buckets| && s.ht0.buckets[j] != []
  {
    CountZero(s.ht0.buckets);
    hide Shaped, Placed, InTable, Lookup, Count;
    j :| 0 <= j < |s.ht0.buckets| && s.ht0.buckets[j] != [];
  }

  /** When the first table is empty the second takes its place. */
  lemma RehashFinished<K(!new), V>(s: State<K, V>, hash: K -> bv64)
    requires Inv(s, hash) && s.Rehashing() && s.ht0.used == 0
    ensures var s' := State(s.ht1, NoTable(), -1, s.iterators);
            && Inv(s', hash) && s'.Used() == s.Used()
            && forall k :: Lookup(s', hash, k) == Lookup(s, hash, k)
  {
    EmptyTable(s.ht0, hash);
    hide Val, LowMask, Slot, InChain;
  }

  lemma SetBucketIs<K, V>(t: Table<K, V>, i: nat, c: Chain<K, V>)
    requires i < |t.buckets|
    ensures SetBucket(t, i, c).buckets == t.buckets[i := c] && SetBucket(t, i, c).mask == t.mask
  {}

  // ----- The same steps, seen from the map -----

  /** What the fields of a well-formed dictionary satisfy. */
  lemma Fields<K(!new), V>(s: State<K, V>, hash: K -> bv64, m: map<K, V>)
    requires Stands(s, hash, m)
    ensures Shaped(s.ht0) && Shaped(s.ht1) && |m| == s.Used()
    ensures s.Rehashing() ==> 0 <= s.rehashidx <= |s.ht0.buckets| && s.ht0.buckets != [] && s.ht1.buckets != []
    ensures !s.Rehashing() ==> s.ht1 == NoTable()
    ensures s.Used() > 0 ==> s.ht0.buckets != []
  {
    hide Placed, InTable, Lookup, Count;
  }

  /** A change that keeps every lookup and the number of entries keeps the map. */
  lemma KeepsMap<K(!new), V>(s: State<K, V>, s': State<K, V>, hash: K -> bv64, m: map<K, V>)
    requires Stands(s, hash, m) && Inv(s', hash) && s'.Used() == s.Used()
    requires forall k :: Lookup(s', hash, k) == Lookup(s, hash, k)
    ensures Stands(s', hash, m)
  {
    hide Lookup, Shaped, Placed, Count, InTable;
  }

  lemma MoveHeadStands<K(!new), V>(s: State<K, V>, hash: K -> bv64, m: map<K, V>)
    requires Stands(s, hash, m) && s.Rehashing() && s.rehashidx < |s.ht0.buckets| && s.ht0.buckets[s.rehashidx] != []
    ensures Shaped(s.ht1) && s.ht1.buckets != [] && 0 <= s.rehashidx
    ensures var s' := MoveHead(s, hash);
            var c := s.ht0.buckets[s.rehashidx];
            var i := Slot(hash(c[0].key), s.ht1);
            && Stands(s', hash, m)
            && s.ht0.used > 0
            && s' == s.(ht0 := Table(s.ht0.buckets[s.rehashidx := c[1..]], s.ht0.mask, s.ht0.used - 1),
                        ht1 := Table(s.ht1.buckets[i := [c[0]] + s.ht1.buckets[i]], s.ht1.mask, s.ht1.used + 1))
  {
    hide InTable, Lookup, Count, Placed, Slot, InChain, LowMask, Val;
    MoveHeadKeeps(s, hash);
    KeepsMap(s, MoveHead(s, hash), hash, m);
  }

  lemma BucketPassedStands<K(!new), V>(s: State<K, V>, hash: K -> bv64, m: map<K, V>)
    requires Stands(s, hash, m) && s.Rehashing() && s.rehashidx < |s.ht0.buckets|
    requires s.rehashidx >= 0 ==> s.ht0.buckets[s.rehashidx] == []
    ensures Stands(s.(rehashidx := s.rehashidx + 1), hash, m)
  {
    hide InTable, Lookup, Count, Placed, Shaped;
    BucketPassed(s, hash);
    KeepsMap(s, s.(rehashidx := s.rehashidx + 1), hash, m);
  }

  lemma RehashStartedStands<K(!new), V>(s: State<K, V>, hash: K -> bv64, t: Table<K, V>, m: map<K, V>)
    requires Stands(s, hash, m) && !s.Rehashing()
    requires TableInv(t, hash) && t.used == 0 && t.buckets != [] && forall k :: InTable(t, hash, k).None?
    ensures Stands(if s.ht0.buckets == [] then s.(ht0 := t) else s.(ht1 := t, rehashidx := 0), hash, m)
  {
    hide InTable, Lookup, Count, Placed, Shaped;
    RehashStarted(s, hash, t);
    KeepsMap(s, if s.ht0.buckets == [] then s.(ht0 := t) else s.(ht1 := t, rehashidx := 0), hash, m);
  }

  lemma RehashFinishedStands<K(!new), V>(s: State<K, V>, hash: K -> bv64, m: map<K, V>)
    requires Stands(s, hash, m) && s.Rehashing() && s.ht0.used == 0
    ensures Stands(State(s.ht1, NoTable(), -1, s.iterators), hash, m)
  {
    hide InTable, Lookup, Count, Placed, Shaped;
    RehashFinished(s, hash);
    KeepsMap(s, State(s.ht1, NoTable(), -1, s.iterators), hash, m);
  }

  lemma BucketAheadStands<K(!new), V>(s: State<K, V>, hash: K -> bv64, m: map<K, V>) returns (j: nat)
    requires Stands(s, hash, m) && s.Rehashing() && s.ht0.used != 0
    ensures 0 <= s.rehashidx <= j < |s.ht0.buckets| && s.ht0.buckets[j] != []
  {
    hide InTable, Lookup, Count, Placed, Shaped;
    j := BucketAhead(s, hash);
  }

  /** Table `second` of the state, and the state with that table replaced. */
  function TableOf<K, V>(s: State<K, V>, second: bool): Table<K, V> { if second then s.ht1 else s.ht0 }
  function WithTable<K, V>(s: State<K, V>, second: bool, t: Table<K, V>): State<K, V>
  {
    if second then s.(ht1 := t) else s.(ht0 := t)
  }

  /** A key that the map lacks is in neither table; one it has is in just one of them. */
  lemma MapAndTables<K(!new), V>(s: State<K, V>, hash: K -> bv64, m: map<K, V>, k: K)
    requires Stands(s, hash, m)
    ensures Shaped(s.ht0) && Shaped(s.ht1)
    ensures k !in m <==> InTable(s.ht0, hash, k).None? && InTable(s.ht1, hash, k).None?
    ensures k in m && InTable(s.ht0, hash, k).Some? ==>
            InTable(s.ht0, hash, k) == Some(m[k]) && InTable(s.ht1, hash, k).None?
    ensures k in m && InTable(s.ht1, hash, k).Some? ==>
            InTable(s.ht1, hash, k) == Some(m[k]) && InTable(s.ht0, hash, k).None?
    ensures Lookup(s, hash, k) == if k in m then Some(m[k]) else None
  {
    hide InTable, Placed, Count;
  }

  /** Changing one table so that it answers differently for one key only. */
  lemma TableChangedInv<K(!new), V>(s: State<K, V>, hash: K -> bv64, second: bool, t: Table<K, V>, k: K, v: Option<V>)
    requires Inv(s, hash) && TableInv(t, hash)
    requires t.Size() == TableOf(s, second).Size() && t.Size() > 0
    requires second ==> s.Rehashing()
    requires !second && s.Rehashing() ==> forall i :: 0 <= i < s.rehashidx ==> t.buckets[i] == []
    requires Shaped(TableOf(s, !second)) && InTable(TableOf(s, !second), hash, k).None?
    requires Shaped(TableOf(s, second))
    requires forall x :: InTable(t, hash, x) == if x == k then v else InTable(TableOf(s, second), hash, x)
    ensures Inv(WithTable(s, second, t), hash)
  {
    var s' := WithTable(s, second, t);
    hide InTable, Placed, Count, Shaped;
    forall x ensures InTable(s'.ht0, hash, x).None? || InTable(s'.ht1, hash, x).None? {}
  }

  lemma LookupChanged<K(!new), V>(s: State<K, V>, hash: K -> bv64, m: map<K, V>, second: bool, t: Table<K, V>,
                                  k: K, v: Option<V>, m': map<K, V>, x: K)
    requires Inv(s, hash) && Represents(s, hash, m) && Shaped(t)
    requires Shaped(TableOf(s, !second)) && InTable(TableOf(s, !second), hash, k).None?
    requires Shaped(TableOf(s, second))
    requires InTable(t, hash, x) == if x == k then v else InTable(TableOf(s, second), hash, x)
    requires m' == match v case Some(y) => m[k := y] case None => m - {k}
    ensures Lookup(WithTable(s, second, t), hash, x) == if x in m' then Some(m'[x]) else None
  {
    hide InTable, Placed, Count, Shaped;
    assert Lookup(s, hash, x) == if x in m then Some(m[x]) else None;
  }

  lemma TableChanged<K(!new), V>(s: State<K, V>, hash: K -> bv64, m: map<K, V>, second: bool, t: Table<K, V>,
                                 k: K, v: Option<V>, m': map<K, V>)
    requires Stands(s, hash, m) && TableInv(t, hash)
    requires t.Size() == TableOf(s, second).Size() && t.Size() > 0
    requires second ==> s.Rehashing()
    requires !second && s.Rehashing() ==> forall i :: 0 <= i < s.rehashidx ==> t.buckets[i] == []
    requires Shaped(TableOf(s, !second)) && InTable(TableOf(s, !second), hash, k).None?
    requires Shaped(TableOf(s, second))
    requires forall x :: InTable(t, hash, x) == if x == k then v else InTable(TableOf(s, second), hash, x)
    requires m' == match v case Some(y) => m[k := y] case None => m - {k}
    requires |m'| - |m| == t.used - TableOf(s, second).used
    ensures Stands(WithTable(s, second, t), hash, m')
  {
    hide InTable, Inv, Placed, Count, Lookup, Shaped;
    var s' := WithTable(s, second, t);
    TableChangedInv(s, hash, second, t, k, v);
    forall x ensures Lookup(s', hash, x) == if x in m' then Some(m'[x]) else None {
      LookupChanged(s, hash, m, second, t, k, v, m', x);
    }
  }

  function Push<K, V>(t: Table<K, V>, i: nat, e: Entry<K, V>): Table<K, V>
    requires i < |t.buckets|
  {
    Table(t.buckets[i := [e] + t.buckets[i]], t.mask, t.used + 1)
  }

  lemma AddedStands<K(!new), V>(s: State<K, V>, hash: K -> bv64, m: map<K, V>, e: Entry<K, V>)
    requires Stands(s, hash, m) && e.key !in m && s.ht0.buckets != []
    ensures var t := TableOf(s, s.Rehashing());
            && Shaped(t) && t.buckets != []
            && Stands(WithTable(s, s.Rehashing(), Push(t, Slot(hash(e.key), t), e)), hash, m[e.key := e.val])
  {
    hide Count, Slot, LowMask, Val, InChain, Lookup;
    MapAndTables(s, hash, m, e.key);
    Fields(s, hash, m);
    var t := TableOf(s, s.Rehashing());
    Pushed(t, hash, e);
    hide InTable, Placed;
    var i := Slot(hash(e.key), t);
    SetBucketIs(t, i, [e] + t.buckets[i]);
    TableChanged(s, hash, m, s.Rehashing(), Push(t, i, e), e.key, Some(e.val), m[e.key := e.val]);
  }

  lemma RemovedStands<K(!new), V>(s: State<K, V>, hash: K -> bv64, m: map<K, V>, second: bool, i: nat, j: nat)
    requires Stands(s, hash, m)
    requires i < |TableOf(s, second).buckets| && j < |TableOf(s, second).buckets[i]|
    ensures var t := TableOf(s, second);
            var b := t.buckets[i];
            && t.used > 0 && b[j].key in m && m[b[j].key] == b[j].val
            && Stands(WithTable(s, second, Table(t.buckets[i := b[..j] + b[j + 1..]], t.mask, t.used - 1)),
                      hash, m - {b[j].key})
  {
    hide Count, Slot, LowMask, Val, InChain, Lookup;
    var t := TableOf(s, second);
    var b := t.buckets[i];
    Fields(s, hash, m);
    EntryIsFound(t, hash, i, j);
    MapAndTables(s, hash, m, b[j].key);
    Removed(t, hash, i, j);
    hide InTable, Placed;
    SetBucketIs(t, i, b[..j] + b[j + 1..]);
    TableChanged(s, hash, m, second, SetBucket(t, i, b[..j] + b[j + 1..]), b[j].key, None, m - {b[j].key});
  }

  /** The state with another value in entry `j` of bucket `i` of one table. */
  function WithValue<K, V>(s: State<K, V>, second: bool, i: nat, j: nat, v: V): State<K, V>
    requires i < |TableOf(s, second).buckets| && j < |TableOf(s, second).buckets[i]|
  {
    var t := TableOf(s, second);
    var b := t.buckets[i];
    WithTable(s, second, t.(buckets := t.buckets[i := b[j := b[j].(val := v)]]))
  }

  lemma RewrittenStands<K(!new), V>(s: State<K, V>, hash: K -> bv64, m: map<K, V>, second: bool, i: nat, j: nat, v: V)
    requires Stands(s, hash, m)
    requires i < |TableOf(s, second).buckets| && j < |TableOf(s, second).buckets[i]|
    ensures var e := TableOf(s, second).buckets[i][j];
            && e.key in m && m[e.key] == e.val
            && Stands(WithValue(s, second, i, j, v), hash, m[e.key := v])
  {
    hide Count, Slot, LowMask, Val, InChain, Lookup;
    var t := TableOf(s, second);
    var b := t.buckets[i];
    Fields(s, hash, m);
    EntryIsFound(t, hash, i, j);
    MapAndTables(s, hash, m, b[j].key);
    Rewritten(t, hash, i, j, v);
    hide InTable, Placed;
    SetBucketIs(t, i, b[j := b[j].(val := v)]);
    TableChanged(s, hash, m, second, SetBucket(t, i, b[j := b[j].(val := v)]), b[j].key, Some(v), m[b[j].key := v]);
  }
}
